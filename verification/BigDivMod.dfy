/** `bigdivrem` and `bigdivmod`: division of whole bignums, truncated and floored. */
module BigDivMod {
  import opened Arith
  import opened Digits
  import opened BigShift
  import opened BigDiv
  import opened BigAdd

  // ---------------------------------------------------------------- one-digit divisors

  lemma SmallStep(x: Digit, d: int, vx: int, vq: int, t: int)
    requires 0 < d <= B && 0 <= t < d && vx == vq * d + t
    ensures var n := t * B + x; 0 <= n / d < B && x + B * vx == (n / d + B * vq) * d + n % d
  {
    var n := t * B + x;
    MulMono(t, d - 1, B);
    DivFits(n, d);
    assert n == (n / d) * d + n % d;
    assert (n / d + B * vq) * d == (n / d) * d + B * (vq * d);
  }

  /** Divides the n low digits of z by d in place, from the top down, and returns the remainder: the
      loop of `bigdivrem` for one-digit divisors, and of `big2str_orig`. */
  method DivSmall(z: array<Digit>, n: nat, d: int) returns (t: int)
    requires n <= z.Length && 0 < d < B
    modifies z
    ensures z[n..] == old(z[n..])
    ensures 0 <= t < d && Val(old(z[..n])) == Val(z[..n]) * d + t
  {
    ghost var z0: seq<Digit> := z[..];
    t := 0;
    var i := n;
    assert z0[i..n] == [] && z[..][i..n] == [];
    while i > 0
      invariant 0 <= i <= n
      invariant 0 <= t < d
      invariant z[..][..i] == z0[..i] && z[..][n..] == z0[n..]
      invariant Val(z0[i..n]) == Val(z[..][i..n]) * d + t
    {
      i := i - 1;
      ghost var before: seq<Digit> := z[..];
      assert before[..i + 1][i] == z0[..i + 1][i];
      SmallStep(z[i], d, Val(z0[i + 1..n]), Val(before[i + 1..n]), t);
      t := t * B + z[i];
      z[i] := t / d;
      t := t % d;
      assert z0[i..n][1..] == z0[i + 1..n];
      assert z[..][i..n] == [z[i]] + before[i + 1..n];
      assert z[..][..i] == before[..i + 1][..i];
    }
    assert z[..][..n] == z[..n] && z0[..n] == old(z[..n]) && z[..][0..n] == z[..n] && z0[0..n] == old(z[..n]);
    assert z[..][n..] == z[n..] && z0[n..] == old(z[n..]);
  }

  // ---------------------------------------------------------------- normalisation

  lemma RoomToDouble(top: Digit, dd: nat)
    requires top > 0 && dd < 32 && 2 * (top * Pow2(dd)) < B
    ensures dd < 31 && (top + 1) * Pow2(dd + 1) <= B
  {
    hide Pow2;
    var s, h := Pow2(dd), Pow2(31 - dd);
    HalfBase(dd);
    Pow2Next(dd);
    Doubling(top, s, h);
  }

  lemma Doubling(top: int, s: int, h: int)
    requires top > 0 && s >= 1 && 2 * (top * s) < B && 2 * (h * s) == B
    ensures h > 1 && (top + 1) * (2 * s) <= B
  {
    MulCancel(top, h - 1, s);
    MulMono(top + 1, h, s);
    assert (top + 1) * (2 * s) == 2 * ((top + 1) * s);
  }

  lemma HalfBase(dd: nat)
    requires dd < 32
    ensures 2 * (Pow2(31 - dd) * Pow2(dd)) == B
  {
    Pow2Add(31 - dd, dd);
    Pow2Of32();
  }

  /** How far the divisor must be shifted for its top bit to be set. */
  method NormalizeShift(top: Digit) returns (dd: nat)
    requires top > 0
    ensures dd < 32 && 2 * (top * Pow2(dd)) >= B && (top + 1) * Pow2(dd) <= B
  {
    dd := 0;
    var q := top;
    assert top * Pow2(0) == top;
    while 2 * q < B
      invariant dd < 32 && q == top * Pow2(dd) && (top + 1) * Pow2(dd) <= B
      decreases B - q
    {
      RoomToDouble(top, dd);
      MulMono(1, top, Pow2(dd));
      assert top * Pow2(dd + 1) == 2 * q;
      q := 2 * q;
      dd := dd + 1;
    }
  }

  /** A divisor shifted that far does not overflow, and its top bit is set. */
  lemma ShiftedDivisor(y: seq<Digit>, ys: seq<Digit>, t: Digit, dd: nat)
    requires y != [] && |ys| == |y| && dd < 32
    requires 2 * (y[|y| - 1] * Pow2(dd)) >= B && (y[|y| - 1] + 1) * Pow2(dd) <= B
    requires Val(ys) + t * Pow(|y|) == Val(y) * Pow2(dd)
    ensures t == 0 && Val(ys) == Val(y) * Pow2(dd) && 2 * ys[|ys| - 1] >= B
  {
    var k := |y| - 1;
    ValTop(y);
    ValTop(ys);
    ScaledBelow(Val(y), y[k], Pow(k), Pow2(dd));
    MulCancel(t, 0, Pow(|y|));
    assert t * Pow(|y|) == 0;
    ScaledTop(Val(y), y[k], Pow(k), Pow2(dd), ys[k]);
  }

  lemma ScaledBelow(v: int, top: int, P: int, s: int)
    requires s >= 1 && P >= 1 && v < (top + 1) * P && (top + 1) * s <= B
    ensures v * s < B * P
  {
    MulMono(v + 1, (top + 1) * P, s);
    assert (v + 1) * s == v * s + s;
    assert ((top + 1) * P) * s == ((top + 1) * s) * P;
    MulMono((top + 1) * s, B, P);
  }

  lemma ScaledTop(v: int, top: int, P: int, s: int, d: int)
    requires s >= 1 && P >= 1 && top * P <= v && v * s < (d + 1) * P
    ensures top * s <= d
  {
    MulMono(top * P, v, s);
    assert (top * P) * s == (top * s) * P;
    assert (d + 1) * P == d * P + P;
    MulCancel(top * s, d, P);
  }

  // ---------------------------------------------------------------- bigdivrem on magnitudes

  /** Index of the end of z once its zero top digits (all but the last digit) are dropped. */
  method TrimLength(z: array<Digit>, n: nat) returns (k: nat)
    requires 0 < n <= z.Length
    ensures 0 < k <= n && (forall i :: k <= i < n ==> z[i] == 0) && (k == 1 || z[k - 1] != 0)
  {
    k := n;
    while k > 1 && z[k - 1] == 0
      invariant 0 < k <= n && forall i :: k <= i < n ==> z[i] == 0
    {
      k := k - 1;
    }
  }

  /** A shift by less than a digit can empty the top digit only. */
  lemma TopAfterShift(src: seq<Digit>, dst: seq<Digit>, s: int, h: int)
    requires s >= 1 && h >= 1 && s * h == B && RightShifted(src, dst, 0, s)
    requires |src| > 1 ==> src[|src| - 1] != 0
    requires |src| >= 1 && dst[|src| - 1] == 0
    ensures |src| > 1 ==> dst[|src| - 2] != 0
  {
    var k := |src| - 1;
    if k > 0 {
      var top := src[k];
      ShiftRightDigit(0, top, s, h);
      assert (0 % s) * h == 0;
      assert top / s == 0;
      assert top == (top / s) * s + top % s;
      ShiftRightDigit(top, src[k - 1], s, h);
      MulMono(1, top % s, h);
      assert dst[k - 1] == Shifted(top, src[k - 1], s);
    }
  }

  /** The end of `bigdivrem`: drop zero top digits of the remainder, shift it back, drop once more. */
  method Remainder(z: array<Digit>, ny: nat, dd: nat, ghost R: nat) returns (r: seq<Digit>)
    requires 0 < ny <= z.Length && dd < 32
    requires Val(z[..ny]) == Pow2(dd) * R
    modifies z
    ensures Val(r) == R && (r != [] ==> r[|r| - 1] != 0) && |r| <= ny
  {
    hide Val, Shifted;
    var k := TrimLength(z, ny);
    ghost var z0: seq<Digit> := z[..ny];
    ValTrim(z0, k);
    ghost var z1: seq<Digit> := z0[..k];
    assert z1 == z[..k];
    ShiftRightInPlace(z, k, dd);
    r := z[..k];
    ShiftedBack(z1, r, dd, R);
    if r[k - 1] == 0 {
      ValTrim(r, k - 1);
      r := r[..k - 1];
    }
  }

  lemma ShiftedBack(src: seq<Digit>, dst: seq<Digit>, dd: nat, R: nat)
    requires dd < 32 && src != [] && RightShifted(src, dst, 0, Pow2(dd))
    requires Val(src) == Pow2(dd) * R
    requires |src| > 1 ==> src[|src| - 1] != 0
    ensures Val(dst) == R
    ensures |dst| > 1 && dst[|dst| - 1] == 0 ==> dst[|dst| - 2] != 0
  {
    hide Val, Shifted, RightShifted;
    var s := Pow2(dd);
    TwoPowers(dd);
    RightShiftedValue(src, dst, 0, s, Pow2(32 - dd));
    assert 0 % s == 0;
    assert 0 * Pow(|src|) == 0;
    ExactShift(Val(dst), src[0] % s, s, R);
    assert |dst| == |src| by { SameLength(src, dst, s); }
    if dst[|dst| - 1] == 0 {
      TopAfterShift(src, dst, s, Pow2(32 - dd));
    }
  }

  lemma SameLength(src: seq<Digit>, dst: seq<Digit>, s: int)
    requires s >= 1 && RightShifted(src, dst, 0, s)
    ensures |dst| == |src|
  {
  }

  lemma ExactShift(v: int, b: int, s: int, R: int)
    requires s >= 1 && 0 <= b < s && s * R == s * v + b
    ensures b == 0 && v == R
  {
    assert s * (R - v) == b;
    if R - v >= 1 {
      MulMono(1, R - v, s);
      assert false;
    }
    if R - v <= -1 {
      MulMono(R - v, -1, s);
      assert false;
    }
  }

  /** |x| = q*|y| + r, 0 <= r < |y|: the magnitudes of `bigdivrem` once x is not plainly smaller. */
  method DivRemMag(x: seq<Digit>, y: seq<Digit>) returns (q: seq<Digit>, r: seq<Digit>)
    requires y != [] && y[|y| - 1] != 0 && |y| <= |x|
    ensures Val(y) > 0 && Val(q) == Val(x) / Val(y) && Val(r) == Val(x) % Val(y)
    ensures |r| <= |y|
  {
    var ny := |y|;
    ValTop(y);
    MulMono(1, y[ny - 1], Pow(ny - 1));
    if ny == 1 {
      q, r := DivRemOne(x, y[0]);
      ValOne(y[0]);
      assert y == [y[0]];
      return;
    }
    var dd := NormalizeShift(y[ny - 1]);
    q, r := DivRemLong(x, y, dd);
  }

  lemma SmallDividend(x: seq<Digit>, y: seq<Digit>)
    requires y != [] && y[|y| - 1] != 0
    requires |x| < |y| || (|x| == |y| && x[|x| - 1] < y[|y| - 1])
    ensures Val(x) < Val(y)
  {
    if |x| < |y| {
      LongerIsLarger(x, y);
    } else {
      ValTop(x);
      ValTop(y);
      MulMono(x[|x| - 1] + 1, y[|y| - 1], Pow(|x| - 1));
    }
  }

  method DivRemOne(x: seq<Digit>, d: Digit) returns (q: seq<Digit>, r: seq<Digit>)
    requires d > 0
    ensures Val(q) == Val(x) / d && Val(r) == Val(x) % d && |r| == 1
  {
    var z := new Digit[|x|](i requires 0 <= i < |x| => x[i]);
    assert z[..|x|] == z[..] == x;
    var t := DivSmall(z, |x|, d);
    assert z[..|x|] == z[..];
    q := z[..];
    r := [t];
    ValOne(t);
    DivModUnique(Val(x), d, Val(q), t);
  }

  /** With s*X = R1 + (s*Y)*Q and R1 < s*Y, the quotient is Q and the remainder R1 / s. */
  lemma Unscale(X: int, Y: int, s: int, Q: int, R1: int)
    requires s >= 1 && Y > 0 && 0 <= R1 < Y * s && R1 + (Y * s) * Q == X * s
    ensures X / Y == Q && R1 == s * (X % Y)
  {
    var R := X - Y * Q;
    assert R1 == R * s by { assert (X - Y * Q) * s == X * s - (Y * s) * Q; }
    MulCancel(R, Y - 1, s);
    MulCancel(-1, R - 1, s);
    DivModUnique(X, Y, Q, R);
  }

  /** Copies x, shifted left by dd bits, into the low digits of a zeroed z. */
  method LoadShifted(x: seq<Digit>, z: array<Digit>, dd: nat)
    requires |x| < z.Length && dd < 32 && forall i :: 0 <= i < z.Length ==> z[i] == 0
    modifies z
    ensures Val(z[..]) == Val(x) * Pow2(dd)
    ensures 2 * z[|x|] < B && forall i :: |x| < i < z.Length ==> z[i] == 0
  {
    ghost var nx := |x|;
    var t: Digit;
    if dd != 0 {
      t := ShiftLeftInto(x, z, 0, dd);
    } else {
      var j := 0;
      while j < |x|
        invariant 0 <= j <= |x|
        invariant z[..j] == x[..j] && z[|x|..] == old(z[|x|..])
      {
        z[j] := x[j];
        j := j + 1;
      }
      t := 0;
      assert z[0..nx] == x[..nx] == x;
    }
    assert forall i :: nx <= i < z.Length ==> z[i] == z[nx..][i - nx] == old(z[nx..])[i - nx];
    ghost var z1: seq<Digit> := z[..];
    assert z1[..nx] == z[0..nx];
    z[|x|] := t;
    ghost var z2: seq<Digit> := z[..];
    assert z2[..nx] == z1[..nx];
    ValNext(z2, nx);
    ValTrim(z2, nx + 1);
    Pow2Half(dd);
  }

  lemma Pow2Half(dd: nat)
    requires dd < 32
    ensures 2 * Pow2(dd) <= B
  {
    hide Pow2;
    Pow2Add(dd + 1, 31 - dd);
    Pow2Of32();
    Pow2Next(dd);
    MulMono(1, Pow2(31 - dd), Pow2(dd + 1));
  }

  /** The general case of `bigdivrem`: normalise, run `bigdivrem1`, move the quotient down and shift the
      remainder back. */
  method DivRemLong(x: seq<Digit>, y: seq<Digit>, dd: nat) returns (q: seq<Digit>, r: seq<Digit>)
    requires y != [] && |y| <= |x| && dd < 32 && Val(y) > 0
    requires 2 * (y[|y| - 1] * Pow2(dd)) >= B && (y[|y| - 1] + 1) * Pow2(dd) <= B
    ensures Val(q) == Val(x) / Val(y) && Val(r) == Val(x) % Val(y)
    ensures |r| <= |y|
  {
    hide Val, Pow, Pow2;
    var nx, ny := |x|, |y|;
    var n := if nx == ny then nx + 2 else nx + 1;
    var z := new Digit[n](_ => 0);
    var yy := new Digit[ny](_ => 0);
    var t := ShiftLeftInto(y, yy, 0, dd);
    assert yy[0..ny] == yy[..ny] == yy[..];
    ShiftedDivisor(y, yy[..], t, dd);
    LoadShifted(x, z, dd);
    SmallDividend(z[n - ny..], yy[..]);
    ghost var s, X, Y := Pow2(dd), Val(x), Val(y);
    DivRem1(z, yy, ny);
    Unscale(X, Y, s, Val(z[ny..]), Val(z[..ny]));
    q := z[ny..];
    if q[|q| - 1] == 0 {
      ValTrim(q, |q| - 1);
      q := q[..|q| - 1];
    }
    r := Remainder(z, ny, dd, X % Y);
  }

  // ---------------------------------------------------------------- signs

  datatype DivResult = ZeroDivision | Divided(div: Big, mod: Big)

  predicate IsZero(x: Big) { forall i :: 0 <= i < |x.mag| ==> x.mag[i] == 0 }

  function Signed(sign: bool, v: int): int { if sign then v else -v }

  lemma SignedDivision(sx: bool, sy: bool, X: int, Y: int, Q: int, R: int)
    requires X == Q * Y + R
    ensures Signed(sx, X) == Signed(sx == sy, Q) * Signed(sy, Y) + Signed(sx, R)
  {
    assert (-Q) * Y == -(Q * Y) && Q * (-Y) == -(Q * Y) && (-Q) * (-Y) == Q * Y;
  }

  /** Truncated division: exact, with a remainder of the sign of x and below |y|. */
  ghost predicate Truncated(x: Big, y: Big, div: Big, mod: Big) {
    && x.Int() == div.Int() * y.Int() + mod.Int()
    && Val(mod.mag) < Val(y.mag)
    && mod.sign == x.sign && |mod.mag| <= |y.mag|
    && (div.sign == (x.sign == y.sign) || div == Big(true, [0]))
  }

  lemma TruncatedLong(x: Big, y: Big, q: seq<Digit>, r: seq<Digit>)
    requires Val(y.mag) > 0 && Val(q) == Val(x.mag) / Val(y.mag) && Val(r) == Val(x.mag) % Val(y.mag)
    requires |r| <= |y.mag|
    ensures Truncated(x, y, Big(x.sign == y.sign, q), Big(x.sign, r))
  {
    hide Val;
    var X, Y, Q, R := Val(x.mag), Val(y.mag), Val(q), Val(r);
    assert X == Q * Y + R;
    SignedDivision(x.sign, y.sign, X, Y, Q, R);
  }

  lemma TruncatedSmall(x: Big, y: Big)
    requires Val(x.mag) < Val(y.mag) && |x.mag| <= |y.mag|
    ensures Truncated(x, y, Big(true, [0]), x)
  {
    ValOne(0);
    assert 0 * y.Int() == 0;
  }

  /** `bigdivrem`: division that truncates; the remainder takes the sign of x. */
  method DivRem(x: Big, y: Big) returns (res: DivResult)
    requires y.Normal()
    ensures res.ZeroDivision? <==> y.Int() == 0
    ensures res.Divided? ==> Truncated(x, y, res.div, res.mod)
  {
    hide Truncated;
    if IsZero(y) {
      ValZeros(y.mag);
      return ZeroDivision;
    }
    var nx, ny := |x.mag|, |y.mag|;
    NotZero(y.mag);
    if nx < ny || (nx == ny && x.mag[nx - 1] < y.mag[ny - 1]) {
      SmallDividend(x.mag, y.mag);
      TruncatedSmall(x, y);
      return Divided(Big(true, [0]), x);
    }
    var q, r := DivRemMag(x.mag, y.mag);
    TruncatedLong(x, y, q, r);
    res := Divided(Big(x.sign == y.sign, q), Big(x.sign, r));
  }

  lemma NotZero(y: seq<Digit>)
    requires !forall i :: 0 <= i < |y| ==> y[i] == 0
    ensures Val(y) > 0
  {
    if Val(y) == 0 {
      ValIsZero(y);
      assert false;
    }
  }

  /** What the floored quotient and remainder of X by Y are. */
  ghost predicate Floored(X: int, Y: int, q: int, m: int) {
    X == q * Y + m && (if Y > 0 then 0 <= m < Y else Y < m <= 0)
  }

  /** There is only one floored division. */
  lemma FlooredUnique(X: int, Y: int, q1: int, m1: int, q2: int, m2: int)
    requires Y != 0 && Floored(X, Y, q1, m1) && Floored(X, Y, q2, m2)
    ensures q1 == q2 && m1 == m2
  {
    if Y > 0 {
      DivModUnique(X, Y, q1, m1);
      DivModUnique(X, Y, q2, m2);
    } else {
      assert -X == q1 * (-Y) + (-m1) && -X == q2 * (-Y) + (-m2);
      DivModUnique(-X, -Y, q1, -m1);
      DivModUnique(-X, -Y, q2, -m2);
    }
  }

  /** Truncated division with a non-zero remainder and opposite signs is one off. */
  lemma FloorFix(X: int, Y: int, q: int, m: int)
    requires X == q * Y + m
    ensures X == (q - 1) * Y + (m + Y)
  {
  }

  /** `bigdivmod`: the floored quotient and remainder, for every sign and length. */
  method DivMod(x: Big, y: Big) returns (res: DivResult)
    requires y.Normal()
    ensures res.ZeroDivision? <==> y.Int() == 0
    ensures res.Divided? ==> Floored(x.Int(), y.Int(), res.div.Int(), res.mod.Int())
  {
    res := DivRem(x, y);
    if res.Divided? {
      var div, mod := res.div, res.mod;
      if x.sign != y.sign && !IsZero(mod) {
        NotZero(mod.mag);
        FloorFix(x.Int(), y.Int(), div.Int(), mod.Int());
        ValOne(1);
        mod := Add(mod, y, true);
        div := Add(div, Big(true, [1]), false);
      } else if x.sign != y.sign {
        ValZeros(mod.mag);
      }
      res := Divided(div, mod);
    }
  }
}
