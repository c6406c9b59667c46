/** Digit strings of `bignum.c`: little-endian, base B = 2^32, and the number they stand for. */
module Digits {
  import opened Arith

  const B: int := 0x1_0000_0000

  type Digit = d: int | 0 <= d < B

  function Pow(n: nat): (p: int)
    ensures p >= 1
  {
    if n == 0 then 1 else B * Pow(n - 1)
  }

  function Val(s: seq<Digit>): (v: nat) {
    if s == [] then 0 else s[0] + B * Val(s[1..])
  }

  lemma {:induction false} PowAdd(a: nat, b: nat)
    ensures Pow(a + b) == Pow(a) * Pow(b)
  {
    if a > 0 {
      PowAdd(a - 1, b);
      calc {
        Pow(a + b);
        B * (Pow(a - 1) * Pow(b));
        (B * Pow(a - 1)) * Pow(b);
      }
    }
  }

  lemma {:induction false} ValConcat(a: seq<Digit>, b: seq<Digit>)
    ensures Val(a + b) == Val(a) + Pow(|a|) * Val(b)
  {
    if a == [] {
      assert a + b == b;
    } else {
      assert (a + b)[1..] == a[1..] + b;
      ValConcat(a[1..], b);
      TimesB(Val(a[1..]), Pow(|a| - 1), Val(b));
    }
  }

  lemma TimesB(x: int, p: int, y: int)
    ensures B * (x + p * y) == B * x + (B * p) * y
  {
    assert B * (p * y) == (B * p) * y;
  }

  lemma ValOne(d: Digit)
    ensures Val([d]) == d
  {
    assert [d][1..] == [];
  }

  /** BDIGIT_DBL: two digits. */
  type Double = x: int | 0 <= x < B * B

  /** A product of digits, a carry and a digit fit the double word, and leave one digit of carry. */
  lemma DoubleFits(d: Digit, y: Digit, n: Digit, z: Digit)
    ensures 0 <= n + d * y <= n + d * y + z < B * B && (n + d * y + z) / B < B
  {
    MulMono(d, B - 1, y);
    MulMono(0, d, y);
  }

  /** A prefix one digit longer. */
  lemma ValNext(s: seq<Digit>, i: nat)
    requires i < |s|
    ensures Val(s[..i + 1]) == Val(s[..i]) + s[i] * Pow(i)
  {
    assert s[..i + 1] == s[..i] + [s[i]];
    ValConcat(s[..i], [s[i]]);
    ValOne(s[i]);
  }

  lemma ValSplit(s: seq<Digit>, i: nat)
    requires i <= |s|
    ensures Val(s) == Val(s[..i]) + Pow(i) * Val(s[i..])
  {
    assert s == s[..i] + s[i..];
    ValConcat(s[..i], s[i..]);
  }

  /** A slice of an array after a write just past it, and the slice one longer. */
  lemma SliceGrows(before: seq<Digit>, after: seq<Digit>, a: nat, i: nat, d: Digit)
    requires a + i < |before| && after == before[a + i := d]
    ensures Val(after[a..a + i + 1]) == Val(before[a..a + i]) + d * Pow(i)
  {
    hide Val, Pow;
    assert after[a..a + i + 1] == before[a..a + i] + [d];
    ValConcat(before[a..a + i], [d]);
    ValOne(d);
  }

  lemma SliceNext(s: seq<Digit>, a: nat, i: nat)
    requires a + i < |s|
    ensures Val(s[a..a + i + 1]) == Val(s[a..a + i]) + s[a + i] * Pow(i)
  {
    hide Val, Pow;
    assert s[a..a + i + 1] == s[a..a + i] + [s[a + i]];
    ValConcat(s[a..a + i], [s[a + i]]);
    ValOne(s[a + i]);
  }

  lemma {:induction false} ValBound(s: seq<Digit>)
    ensures Val(s) < Pow(|s|)
  {
    if s != [] {
      ValBound(s[1..]);
      assert B * Val(s[1..]) <= B * (Pow(|s| - 1) - 1);
    }
  }

  /** A non-zero top digit puts the value in the highest digit's range. */
  lemma ValTop(s: seq<Digit>)
    requires s != []
    ensures var k := |s| - 1;
            s[k] * Pow(k) <= Val(s) < (s[k] + 1) * Pow(k)
  {
    var k := |s| - 1;
    assert s[..k + 1] == s;
    ValNext(s, k);
    ValBound(s[..k]);
    assert (s[k] + 1) * Pow(k) == s[k] * Pow(k) + Pow(k);
  }

  lemma {:induction false} ValZeros(s: seq<Digit>)
    requires forall i :: 0 <= i < |s| ==> s[i] == 0
    ensures Val(s) == 0
  {
    if s != [] {
      ValZeros(s[1..]);
    }
  }

  lemma {:induction false} ValIsZero(s: seq<Digit>)
    requires Val(s) == 0
    ensures forall i :: 0 <= i < |s| ==> s[i] == 0
  {
    if s != [] {
      ValIsZero(s[1..]);
      forall i | 0 <= i < |s| ensures s[i] == 0 {
        if i > 0 {
          assert s[i] == s[1..][i - 1];
        }
      }
    }
  }

  /** Zero digits at the top do not count. */
  lemma ValTrim(s: seq<Digit>, k: nat)
    requires k <= |s| && forall i :: k <= i < |s| ==> s[i] == 0
    ensures Val(s[..k]) == Val(s)
  {
    ValSplit(s, k);
    ValZeros(s[k..]);
  }

  lemma PowMonotone(a: nat, b: nat)
    requires a <= b
    ensures Pow(a) <= Pow(b)
  {
    PowAdd(a, b - a);
    assert Pow(a) * Pow(b - a) >= Pow(a) * 1;
  }

  lemma {:induction false} ValUnique(a: seq<Digit>, b: seq<Digit>)
    requires |a| == |b| && Val(a) == Val(b)
    ensures a == b
  {
    if a != [] {
      assert a[0] == Val(a) % B && b[0] == Val(b) % B;
      ValUnique(a[1..], b[1..]);
      assert a == [a[0]] + a[1..] && b == [b[0]] + b[1..];
    }
  }

  /** A bignum: a sign (true is non-negative) and a magnitude. */
  datatype Big = Big(sign: bool, mag: seq<Digit>) {
    function Int(): int {
      var v: int := Val(mag);
      if sign then v else -v
    }

    /** What `bignorm` leaves: no zero digit at the top. */
    predicate Normal() {
      mag != [] ==> mag[|mag| - 1] != 0
    }
  }

  /** One of two lengths longer and normalised: the longer is the larger. */
  lemma LongerIsLarger(a: seq<Digit>, b: seq<Digit>)
    requires |a| < |b| && b[|b| - 1] != 0
    ensures Val(a) < Val(b)
  {
    hide Val, Pow;
    ValBound(a);
    PowMonotone(|a|, |b| - 1);
    ValTop(b);
    MulMono(1, b[|b| - 1], Pow(|b| - 1));
  }

  lemma DivFits(a: nat, b: int)
    requires b > 0 && a < B * b
    ensures 0 <= a / b < B && (a / b) * b <= a
  {
    var q := a / b;
    var r := a % b;
    assert a == q * b + r;
    assert q * b < (B - 1) * b + b;
    MulCancel(q, B - 1, b);
  }

  lemma Divide(W: nat, Y: int) returns (q: nat, r: nat)
    requires Y > 0 && W < B * Y
    ensures q == W / Y && W == q * Y + r && r < Y && q < B
  {
    DivFits(W, Y);
    q, r := W / Y, W % Y;
  }

  // ---------------------------------------------------------------- powers of two inside a digit

  function Pow2(n: nat): (p: int)
    ensures p >= 1
  {
    if n == 0 then 1 else 2 * Pow2(n - 1)
  }

  lemma Pow2Next(n: nat)
    ensures Pow2(n + 1) == 2 * Pow2(n) && Pow2(0) == 1
  {
  }

  lemma PowNext(n: nat)
    ensures Pow(n + 1) == B * Pow(n)
  {
  }

  lemma {:induction false} Pow2Add(a: nat, b: nat)
    ensures Pow2(a + b) == Pow2(a) * Pow2(b)
  {
    if a > 0 {
      Pow2Add(a - 1, b);
      calc {
        Pow2(a + b);
        2 * (Pow2(a - 1) * Pow2(b));
        (2 * Pow2(a - 1)) * Pow2(b);
      }
    }
  }

  lemma Pow2Mono(a: nat, b: nat)
    requires a <= b
    ensures Pow2(a) <= Pow2(b)
  {
    Pow2Add(a, b - a);
    MulMono(1, Pow2(b - a), Pow2(a));
  }

  lemma Pow2Of32()
    ensures Pow2(32) == B
  {
    assert Pow2(8) == 256;
    Pow2Add(8, 8);
    Pow2Add(16, 16);
  }

  lemma {:induction false} PowIsPow2(n: nat)
    ensures Pow(n) == Pow2(32 * n)
  {
    Pow2Of32();
    if n > 0 {
      PowIsPow2(n - 1);
      Pow2Add(32, 32 * (n - 1));
    }
  }
}
