/** Shifting digit strings by part of a digit: the loops shared by `bigdivrem`, `big_lshift` and
    `big_rshift`. A shift by dd bits is a multiplication or division by s = 2^dd. */
module BigShift {
  import opened Arith
  import opened Digits

  lemma TwoPowers(dd: nat)
    requires dd < 32
    ensures Pow2(dd) * Pow2(32 - dd) == B && Pow2(dd) < B
  {
    hide Pow2;
    Pow2Add(dd, 32 - dd);
    Pow2Of32();
    Pow2Next(31 - dd);
    MulMono(2, Pow2(32 - dd), Pow2(dd));
  }

  lemma ShiftStep(P: int, vd: int, vs: int, s: int, t: int, x: int)
    requires vd + t * P == vs * s
    ensures var n := t + x * s; vd + (n % B) * P + (n / B) * (B * P) == (vs + x * P) * s
  {
    var n := t + x * s;
    assert (n % B) * P + (n / B) * (B * P) == (n % B + B * (n / B)) * P;
    assert (t + x * s) * P == t * P + (x * P) * s;
    assert (vs + x * P) * s == vs * s + (x * P) * s;
  }

  lemma ShiftCarry(t: int, x: Digit, s: int)
    requires 1 <= s && 0 <= t < s
    ensures 0 <= (t + x * s) / B < s
  {
    MulMono(x, B - 1, s);
    MulMono(0, x, s);
    var n := t + x * s;
    var c, r := n / B, n % B;
    assert n == c * B + r;
    assert c * B < s * B;
  }

  /** Writes src shifted left by dd bits into dst at `off`, and returns the bits shifted out. */
  method ShiftLeftInto(src: seq<Digit>, dst: array<Digit>, off: nat, dd: nat) returns (t: Digit)
    requires off + |src| <= dst.Length && dd < 32
    modifies dst
    ensures t < Pow2(dd)
    ensures dst[..off] == old(dst[..off]) && dst[off + |src|..] == old(dst[off + |src|..])
    ensures Val(dst[off..off + |src|]) + t * Pow(|src|) == Val(src) * Pow2(dd)
  {
    var s := Pow2(dd);
    TwoPowers(dd);
    var j := 0;
    t := 0;
    ghost var d0: seq<Digit> := dst[..];
    while j < |src|
      invariant 0 <= j <= |src|
      invariant t < s
      invariant dst[..off] == d0[..off] && dst[off + j..] == d0[off + j..]
      invariant Val(dst[..][off..off + j]) + t * Pow(j) == Val(src[..j]) * s
    {
      ghost var before: seq<Digit> := dst[..];
      ShiftStep(Pow(j), Val(before[off..off + j]), Val(src[..j]), s, t, src[j]);
      ShiftCarry(t, src[j], s);
      ValNext(src, j);
      var n := t + src[j] * s;
      dst[off + j] := n % B;
      t := n / B;
      assert dst[..] == before[off + j := n % B];
      SliceGrows(before, dst[..], off, j, n % B);
      j := j + 1;
    }
    assert src[..j] == src;
    assert dst[..][off..off + j] == dst[off..off + j];
  }

  /** The digit that a right shift makes from a digit and the one above it. */
  function Shifted(hi: int, lo: Digit, s: int): (d: Digit)
    requires s >= 1
  {
    ((hi * B + lo) / s) % B
  }

  lemma ShiftedIs(hi: int, lo: Digit, s: int)
    requires s >= 1
    ensures ((hi * B + lo) / s) % B == Shifted(hi, lo, s)
  {
  }

  /** It is the low bits of the upper digit and the high bits of the lower one. */
  lemma ShiftRightDigit(hi: int, lo: Digit, s: int, h: int)
    requires s >= 1 && h >= 1 && s * h == B && hi >= 0
    ensures Shifted(hi, lo, s) == (hi % s) * h + lo / s
    ensures (hi % s) * h + lo / s < B
  {
    var a, b := hi / s, hi % s;
    var c, d := lo / s, lo % s;
    assert hi == a * s + b && lo == c * s + d;
    MulCancel(c, h - 1, s);
    var e := b * h + c;
    assert b * h <= (s - 1) * h;
    assert (s - 1) * h == B - h;
    assert hi * B == (a * B) * s + (b * h) * s by {
      assert (a * s + b) * B == (a * B) * s + b * (s * h);
    }
    assert hi * B + lo == (a * B + e) * s + d;
    DivModUnique(hi * B + lo, s, a * B + e, d);
    DivModUnique(a * B + e, B, a, e);
  }

  /** dst is src shifted right by log2(s) bits, with the digit `hi` entering from above. */
  ghost predicate RightShifted(src: seq<Digit>, dst: seq<Digit>, hi: int, s: int)
    requires s >= 1
  {
    && |dst| == |src|
    && forall k :: 0 <= k < |src| ==> dst[k] == Shifted(Above(src, k, hi), src[k], s)
  }

  ghost function Above(src: seq<Digit>, k: nat, hi: int): int {
    if k + 1 < |src| then src[k + 1] else hi
  }

  /** The digits of a right shift make the quotient by s; the bits shifted out are the remainder. */
  lemma {:induction false} RightShiftedValue(src: seq<Digit>, dst: seq<Digit>, hi: int, s: int, h: int)
    requires s >= 1 && h >= 1 && s * h == B && hi >= 0
    requires RightShifted(src, dst, hi, s)
    ensures Val(src) + (hi % s) * Pow(|src|) == s * Val(dst) + (if src == [] then hi else src[0]) % s
  {
    hide Shifted;
    if src == [] {
    } else {
      var src1, dst1 := src[1..], dst[1..];
      forall k | 0 <= k < |src1| ensures dst1[k] == Shifted(Above(src1, k, hi), src1[k], s) {
        assert dst1[k] == dst[k + 1] && src1[k] == src[k + 1] && Above(src1, k, hi) == Above(src, k + 1, hi);
      }
      RightShiftedValue(src1, dst1, hi, s, h);
      var up := Above(src, 0, hi);
      ShiftRightDigit(up, src[0], s, h);
      ShiftedArithmetic(src[0], Val(src1), Val(dst1), up, hi % s, Pow(|src1|), s, h, dst[0]);
    }
  }

  lemma ShiftedArithmetic(x: Digit, vs: int, vd: int, up: int, b0: int, P: int, s: int, h: int, d: int)
    requires s >= 1 && s * h == B && d == (up % s) * h + x / s
    requires vs + b0 * P == s * vd + up % s
    ensures (x + B * vs) + b0 * (B * P) == s * (d + B * vd) + x % s
  {
    var b, c := up % s, x / s;
    assert x == c * s + x % s;
    assert s * d == b * (s * h) + c * s;
    assert s * (d + B * vd) == s * d + B * (s * vd);
    assert b0 * (B * P) == B * (b0 * P);
  }

  /** The loop of `bigdivrem` that shifts the remainder back, from its top digit down. */
  method ShiftRightInPlace(z: array<Digit>, n: nat, dd: nat)
    requires n <= z.Length && dd < 32
    modifies z
    ensures z[n..] == old(z[n..])
    ensures RightShifted(old(z[..n]), z[..n], 0, Pow2(dd))
  {
    hide Shifted;
    var s := Pow2(dd);
    ghost var z0: seq<Digit> := z[..n];
    var t2 := 0;
    var i := n;
    while i > 0
      invariant 0 <= i <= n
      invariant t2 == (if i < n then z0[i] else 0) * B
      invariant z[..i] == z0[..i] && z[n..] == old(z[n..])
      invariant forall k :: i <= k < n ==> z[k] == Shifted(Above(z0, k, 0), z0[k], s)
    {
      i := i - 1;
      assert z[i] == z0[i];
      ShiftedIs(Above(z0, i, 0), z0[i], s);
      t2 := (t2 + z[i]) / s;
      var q := z[i];
      z[i] := t2 % B;
      t2 := q * B;
    }
  }
}
