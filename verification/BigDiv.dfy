/** Long division by a divisor whose top bit is set: `bigdivrem1`. */
module BigDiv {
  import opened Arith
  import opened Digits

  // ---------------------------------------------------------------- arithmetic of one quotient digit

  /** The digit the code tries: from the top two digits of the window and the top digit of y. */
  function Trial(z1: Digit, z0: Digit, y: Digit): (q: int)
    requires y > 0
  {
    if z1 == y then B - 1 else (z1 * B + z0) / y
  }

  /** z1*B + z0 is at least trial times y's top digit, and the trial fits in a digit. */
  lemma TrialFits(z1: Digit, z0: Digit, y: Digit)
    requires 0 < y && z1 <= y
    ensures 0 <= Trial(z1, z0, y) < B
    ensures Trial(z1, z0, y) * y <= z1 * B + z0
  {
    if z1 < y {
      DivFits(z1 * B + z0, y);
    }
  }

  /** With p = B^(ny-1), the window is W = (z1*B + z0)*p + low = q*Y + r and the divisor is
      Y = y*p + ylow. The trial digit is never too small and at most two too large, and it is too large
      by less than B*p in all: the borrow left after subtracting trial*Y is at most one. */
  lemma TrialDigit(z1: Digit, z0: Digit, y: Digit, low: nat, ylow: nat, p: int, q: nat, r: nat)
    requires p >= 1 && low < p && ylow < p && 2 * y >= B
    requires (z1 * B + z0) * p + low == q * (y * p + ylow) + r
    requires r < y * p + ylow && q < B
    ensures z1 <= y
    ensures var W := (z1 * B + z0) * p + low; var Y := y * p + ylow; var t := Trial(z1, z0, y);
            && 0 <= t < B
            && q <= t <= q + 2
            && -(B * p) < W - t * Y < Y
  {
    var zz := z1 * B + z0;
    var Y := y * p + ylow;
    TopAtMost(z1, zz, y, low, ylow, p, q, r);
    TrialFits(z1, z0, y);
    var t := Trial(z1, z0, y);
    if z1 < y {
      NotTooSmall(zz, y, low, ylow, p, q, r);
      DivAtLeast(zz, y, q);
    }
    NotTooLarge(zz, y, low, ylow, p, t, q, r);
  }

  lemma TopAtMost(z1: Digit, zz: int, y: Digit, low: nat, ylow: nat, p: int, q: nat, r: nat)
    requires p >= 1 && ylow < p && q < B && z1 * B <= zz
    requires zz * p + low == q * (y * p + ylow) + r && r < y * p + ylow
    ensures z1 <= y
  {
    var Y := y * p + ylow;
    assert q * Y + Y <= B * Y by { MulMono(q + 1, B, Y); }
    assert B * Y < (B * (y + 1)) * p by {
      assert Y < (y + 1) * p;
      assert B * ((y + 1) * p) == (B * (y + 1)) * p;
    }
    MulCancel(zz, B * (y + 1) - 1, p);
    assert z1 * B < B * (y + 1);
  }

  lemma NotTooSmall(zz: int, y: Digit, low: nat, ylow: nat, p: int, q: nat, r: nat)
    requires p >= 1 && low < p
    requires zz * p + low == q * (y * p + ylow) + r
    ensures q * y <= zz
  {
    assert q * (y * p + ylow) == (q * y) * p + q * ylow;
    assert q * ylow >= 0;
    MulCancel(q * y, zz, p);
  }

  lemma Overshoot(y: Digit, ylow: nat, p: int, t: int)
    requires p >= 1 && ylow < p && 2 * y >= B && 0 <= t < B
    ensures 0 <= t * ylow < B * p <= 2 * (y * p + ylow)
  {
    MulMono(t, B - 1, ylow);
    MulMono(ylow, p, B - 1);
    MulMono(B, 2 * y, p);
    assert (2 * y) * p == 2 * (y * p);
    assert p * (B - 1) == B * p - p;
  }

  lemma NotTooLarge(zz: int, y: Digit, low: nat, ylow: nat, p: int, t: int, q: nat, r: nat)
    requires p >= 1 && low < p && ylow < p && 2 * y >= B
    requires 0 <= t < B && t * y <= zz
    requires zz * p + low == q * (y * p + ylow) + r && r < y * p + ylow
    ensures var W := zz * p + low; var Y := y * p + ylow;
            -(B * p) < W - t * Y && t <= q + 2 && (q <= t ==> W - t * Y < Y)
  {
    var W, Y := zz * p + low, y * p + ylow;
    Overshoot(y, ylow, p, t);
    var over, tY, qY := t * ylow, t * Y, q * Y;
    assert tY == (t * y) * p + over;
    MulMono(t * y, zz, p);
    assert W - tY >= -over;
    assert (t - 2) * Y == tY - 2 * Y;
    MulCancel(t - 2, q, Y);
    if q <= t {
      MulMono(q, t, Y);
    }
  }

  // ---------------------------------------------------------------- one quotient digit, in place

  lemma MulSubStep(P: int, vz: int, vz0: int, vy: int, q: int, num: int, t2: int, z: int, y: int)
    requires vz + num * P == vz0 - q * vy + t2 * P
    ensures var t := t2 + y * q; var n := z + num - t % B;
            vz + (n % B) * P + (n / B) * (B * P) == vz0 + z * P - q * (vy + y * P) + (t / B) * (B * P)
  {
    var t := t2 + y * q;
    var lo, hi := t % B, t / B;
    var n := z + num - lo;
    assert (n % B) * P + (n / B) * (B * P) == (n % B + B * (n / B)) * P;
    assert (z + num - lo) * P == z * P + num * P - lo * P;
    assert lo * P + hi * (B * P) == (lo + B * hi) * P;
    assert (t2 + y * q) * P == t2 * P + q * (y * P);
    assert q * (vy + y * P) == q * vy + q * (y * P);
  }

  /** i digits of z at a have had q times the i low digits of y taken away, up to borrow and carry. */
  ghost predicate Subtracted(z: seq<Digit>, z0: seq<Digit>, y: seq<Digit>, a: nat, i: nat, q: int, num: int, t2: int) {
    && i <= |y| && a + i <= |z| == |z0|
    && z[..a] == z0[..a] && z[a + i..] == z0[a + i..]
    && Val(z[a..a + i]) + num * Pow(i) == Val(z0[a..a + i]) - q * Val(y[..i]) + t2 * Pow(i)
  }

  lemma SubtractDigit(z: seq<Digit>, z0: seq<Digit>, y: seq<Digit>, a: nat, i: nat, q: int, num: int, t2: int)
    requires Subtracted(z, z0, y, a, i, q, num, t2) && i < |y| && a + i < |z|
    ensures var t := t2 + y[i] * q; var n := z[a + i] + num - t % B;
            Subtracted(z[a + i := n % B], z0, y, a, i + 1, q, n / B, t / B)
  {
    var t := t2 + y[i] * q;
    var n := z[a + i] + num - t % B;
    assert z[a + i] == z0[a + i] by { assert z[a + i..][0] == z0[a + i..][0]; }
    MulSubStep(Pow(i), Val(z[a..a + i]), Val(z0[a..a + i]), Val(y[..i]), q, num, t2, z[a + i], y[i]);
    var z1 := z[a + i := n % B];
    SliceGrows(z, z1, a, i, n % B);
    SliceNext(z0, a, i);
    ValNext(y, i);
    assert z1[..a] == z[..a];
    assert z1[a + i + 1..] == z[a + i..][1..] && z0[a + i + 1..] == z0[a + i..][1..];
  }

  lemma NothingSubtracted(z: seq<Digit>, y: seq<Digit>, a: nat, i: nat, q: int)
    requires i <= |y| && a + i <= |z| && forall k :: 0 <= k < i ==> y[k] == 0
    ensures Subtracted(z, z, y, a, i, q, 0, 0)
  {
    ValZeros(y[..i]);
  }

  /** "multiply and subtract": takes q*y away from the ny digits of z at a. What is left to take from
      the digit above is the borrow (0 or -1) less the product's carry. */
  method MulSub(z: array<Digit>, y: array<Digit>, a: nat, ny: nat, nyzero: nat, q: Digit) returns (num: int, t2: int)
    requires z != y && 0 < ny <= y.Length && a + ny <= z.Length
    requires nyzero < ny && forall k :: 0 <= k < nyzero ==> y[k] == 0
    modifies z
    ensures Subtracted(z[..], old(z[..]), y[..], a, ny, q, num, t2)
  {
    var i := nyzero;
    num := 0;
    t2 := 0;
    ghost var z0 := z[..];
    ghost var ys := y[..];
    NothingSubtracted(z0, ys, a, i, q);
    hide Subtracted;
    while i < ny
      invariant nyzero <= i <= ny
      invariant -1 <= num <= 0 && 0 <= t2 < B
      invariant ys == y[..] && Subtracted(z[..], z0, ys, a, i, q, num, t2)
    {
      ghost var before: seq<Digit> := z[..];
      SubtractDigit(before, z0, ys, a, i, q, num, t2);
      DoubleFits(y[i], q, t2, 0);
      t2 := t2 + y[i] * q;
      var ee := num - t2 % B;
      num := z[a + i] + ee;
      if ee != 0 {
        z[a + i] := num % B;
      }
      assert z[..] == before[a + i := num % B];
      num := num / B;
      t2 := t2 / B;
      i := i + 1;
    }
  }

  lemma AddStep(P: int, vz: int, vz0: int, vy: int, num: int, z: int, y: int)
    requires vz + num * P == vz0 + vy
    ensures var n := z + (num + y);
            vz + (n % B) * P + (n / B) * (B * P) == vz0 + z * P + (vy + y * P)
  {
    var n := z + (num + y);
    assert (n % B) * P + (n / B) * (B * P) == (n % B + B * (n / B)) * P;
    assert (z + (num + y)) * P == z * P + num * P + y * P;
  }

  ghost predicate Added(z: seq<Digit>, z0: seq<Digit>, y: seq<Digit>, a: nat, i: nat, num: int) {
    && i <= |y| && a + i <= |z| == |z0|
    && z[..a] == z0[..a] && z[a + i..] == z0[a + i..]
    && Val(z[a..a + i]) + num * Pow(i) == Val(z0[a..a + i]) + Val(y[..i])
  }

  lemma AddDigit(z: seq<Digit>, z0: seq<Digit>, y: seq<Digit>, a: nat, i: nat, num: int)
    requires Added(z, z0, y, a, i, num) && i < |y| && a + i < |z|
    ensures var n := z[a + i] + (num + y[i]);
            Added(z[a + i := n % B], z0, y, a, i + 1, n / B)
  {
    var n := z[a + i] + (num + y[i]);
    assert z[a + i] == z0[a + i] by { assert z[a + i..][0] == z0[a + i..][0]; }
    AddStep(Pow(i), Val(z[a..a + i]), Val(z0[a..a + i]), Val(y[..i]), num, z[a + i], y[i]);
    var z1 := z[a + i := n % B];
    SliceGrows(z, z1, a, i, n % B);
    SliceNext(z0, a, i);
    ValNext(y, i);
    assert z1[..a] == z[..a];
    assert z1[a + i + 1..] == z[a + i..][1..] && z0[a + i + 1..] == z0[a + i..][1..];
  }

  /** "add back": adds y to the ny digits of z at a, and returns the carry. */
  method AddBack(z: array<Digit>, y: array<Digit>, a: nat, ny: nat) returns (num: int)
    requires z != y && 0 < ny <= y.Length && a + ny <= z.Length
    modifies z
    ensures 0 <= num <= 1
    ensures Added(z[..], old(z[..]), y[..], a, ny, num)
  {
    var i := 0;
    num := 0;
    ghost var z0 := z[..];
    ghost var ys := y[..];
    while i < ny
      invariant 0 <= i <= ny
      invariant 0 <= num <= 1
      invariant ys == y[..] && Added(z[..], z0, ys, a, i, num)
    {
      ghost var before: seq<Digit> := z[..];
      AddDigit(before, z0, ys, a, i, num);
      var ee := num + y[i];
      num := z[a + i] + ee;
      if ee != 0 {
        z[a + i] := num % B;
      }
      assert z[..] == before[a + i := num % B];
      num := num / B;
      i := i + 1;
    }
  }

  /** The value of a window: its ny low digits and the digit above them. */
  lemma WindowValue(z: seq<Digit>, a: nat, ny: nat)
    requires a + ny < |z|
    ensures Val(z[a..a + ny + 1]) == Val(z[a..a + ny]) + z[a + ny] * Pow(ny)
  {
    SliceNext(z, a, ny);
  }

  /** The top two digits of a window apart: W = (z1*B + z0)*B^(ny-1) + low, with low below B^(ny-1). */
  lemma WindowTop(z: seq<Digit>, a: nat, ny: nat)
    requires 0 < ny && a + ny < |z|
    ensures var low := Val(z[a..a + ny - 1]);
            low < Pow(ny - 1) && Val(z[a..a + ny + 1]) == (z[a + ny] * B + z[a + ny - 1]) * Pow(ny - 1) + low
  {
    hide Val, Pow;
    SliceNext(z, a, ny);
    SliceNext(z, a, ny - 1);
    ValBound(z[a..a + ny - 1]);
    PowNext(ny - 1);
    assert z[a + ny] * (B * Pow(ny - 1)) == (z[a + ny] * B) * Pow(ny - 1);
  }

  lemma DivisorTop(y: seq<Digit>, ny: nat)
    requires 0 < ny <= |y|
    ensures var low := Val(y[..ny - 1]);
            low < Pow(ny - 1) && Val(y[..ny]) == y[ny - 1] * Pow(ny - 1) + low
  {
    ValNext(y, ny - 1);
    ValBound(y[..ny - 1]);
  }

  /** `TrialDigit` for the digits of a window and a divisor whose top bit is set. */
  lemma TrialInWindow(z: seq<Digit>, y: seq<Digit>, a: nat, ny: nat)
    requires 0 < ny <= |y| && a + ny < |z| && 2 * y[ny - 1] >= B
    requires Val(z[a..a + ny + 1]) < B * Val(y[..ny])
    ensures var W := Val(z[a..a + ny + 1]); var Y := Val(y[..ny]);
            var t := Trial(z[a + ny], z[a + ny - 1], y[ny - 1]);
            && Y > 0 && 0 <= t < B
            && W / Y <= t <= W / Y + 2
            && -Pow(ny) < W - t * Y < Y
  {
    hide Val, Pow, Trial;
    WindowTop(z, a, ny);
    DivisorTop(y, ny);
    PowNext(ny - 1);
    var W, Y := Val(z[a..a + ny + 1]), Val(y[..ny]);
    var p := Pow(ny - 1);
    assert y[ny - 1] * p >= 1 by { MulMono(1, y[ny - 1], p); }
    var q, r := Divide(W, Y);
    TrialDigit(z[a + ny], z[a + ny - 1], y[ny - 1], Val(z[a..a + ny - 1]), Val(y[..ny - 1]), p, q, r);
  }

  /** The signed value of a window with a pending borrow. */
  lemma PendingBorrow(low: nat, P: int, num: int, v: int)
    requires low < P && low + num * P == v && -P < v < P
    ensures (v >= 0 ==> num == 0) && (v < 0 ==> num == -1)
  {
    MulCancel(num, 0, P);
    MulCancel(-1, num, P);
  }

  lemma AfterSubtract(z: seq<Digit>, z0: seq<Digit>, y: seq<Digit>, a: nat, ny: nat, q: int, num: int, t2: int)
    requires Subtracted(z, z0, y, a, ny, q, num, t2) && a + ny < |z|
    ensures z[a + ny] == z0[a + ny]
    ensures Val(z[a..a + ny]) + (num + z[a + ny] - t2) * Pow(ny) == Val(z0[a..a + ny + 1]) - q * Val(y[..ny])
  {
    hide Val, Pow;
    assert z[a + ny] == z0[a + ny] by { assert z[a + ny..][0] == z0[a + ny..][0]; }
    WindowValue(z0, a, ny);
    assert (num + z[a + ny] - t2) * Pow(ny) == num * Pow(ny) + z[a + ny] * Pow(ny) - t2 * Pow(ny);
  }

  lemma AfterAddBack(z: seq<Digit>, z1: seq<Digit>, y: seq<Digit>, a: nat, ny: nat, W: int, q: int, carry: int)
    requires Added(z1, z, y, a, ny, carry)
    requires Val(z[a..a + ny]) - Pow(ny) == W - q * Val(y[..ny])
    ensures Val(z1[a..a + ny]) + (carry - 1) * Pow(ny) == W - (q - 1) * Val(y[..ny])
  {
    hide Val, Pow;
    assert (carry - 1) * Pow(ny) == carry * Pow(ny) - Pow(ny);
    assert (q - 1) * Val(y[..ny]) == q * Val(y[..ny]) - Val(y[..ny]);
  }

  /** Only the ny digits at a may differ. */
  ghost predicate Frame(z: seq<Digit>, z0: seq<Digit>, a: nat, ny: nat) {
    a + ny <= |z| == |z0| && z[..a] == z0[..a] && z[a + ny..] == z0[a + ny..]
  }

  lemma SubtractedFrame(z: seq<Digit>, z0: seq<Digit>, y: seq<Digit>, a: nat, ny: nat, q: int, num: int, t2: int)
    requires Subtracted(z, z0, y, a, ny, q, num, t2)
    ensures Frame(z, z0, a, ny)
  {
  }

  /** One round of `bigdivrem1`: divides the ny+1 digits of z at a = j-ny by y. The digit at j becomes
      the quotient digit and the digits below it the remainder. */
  method DivDigit(z: array<Digit>, y: array<Digit>, a: nat, ny: nat, nyzero: nat)
    requires z != y && 0 < ny <= y.Length && a + ny < z.Length
    requires nyzero < ny && forall k :: 0 <= k < nyzero ==> y[k] == 0
    requires 2 * y[ny - 1] >= B
    requires Val(z[a..a + ny + 1]) < B * Val(y[..ny])
    modifies z
    ensures z[..a] == old(z[..a]) && z[a + ny + 1..] == old(z[a + ny + 1..])
    ensures Val(y[..ny]) > 0
    ensures z[a + ny] == old(Val(z[a..a + ny + 1])) / Val(y[..ny])
    ensures Val(z[a..a + ny]) == old(Val(z[a..a + ny + 1])) % Val(y[..ny])
  {
    hide Val, Pow;
    ghost var z0: seq<Digit> := z[..];
    ghost var ys: seq<Digit> := y[..];
    ghost var W, Y := Val(z0[a..a + ny + 1]), Val(ys[..ny]);
    assert ys[..ny] == y[..ny] && z0[a..a + ny + 1] == z[a..a + ny + 1];
    TrialInWindow(z0, ys, a, ny);
    var q := if z[a + ny] == y[ny - 1] then B - 1 else (z[a + ny] * B + z[a + ny - 1]) / y[ny - 1];
    assert q == Trial(z0[a + ny], z0[a + ny - 1], ys[ny - 1]);
    if q != 0 {
      q := SubtractAndFix(z, y, a, ny, nyzero, q);
    } else {
      WindowValue(z0, a, ny);
      ValBound(z0[a..a + ny]);
      assert 0 * Y == 0;
      DivModUnique(W, Y, 0, W);
      PendingBorrow(Val(z0[a..a + ny]), Pow(ny), z0[a + ny], W);
    }
    ghost var z1: seq<Digit> := z[..];
    z[a + ny] := q;
    assert z[..a] == z1[..a] && z[a..a + ny] == z1[a..a + ny] && z[a + ny + 1..] == z1[a + ny + 1..];
    assert z0[..a] == old(z[..a]) && z0[a + ny + 1..] == old(z[a + ny + 1..]) && z0[a..a + ny] == old(z[a..a + ny]);
  }

  /** Subtracts trial*y and adds y back while a borrow is pending, counting the quotient digit down. */
  method SubtractAndFix(z: array<Digit>, y: array<Digit>, a: nat, ny: nat, nyzero: nat, trial: Digit) returns (q: Digit)
    requires z != y && 0 < ny <= y.Length && a + ny < z.Length
    requires nyzero < ny && forall k :: 0 <= k < nyzero ==> y[k] == 0
    requires var W := Val(z[a..a + ny + 1]); var Y := Val(y[..ny]);
             Y > 0 && -Pow(ny) < W - trial * Y < Y
    modifies z
    ensures z[..a] == old(z[..a]) && z[a + ny + 1..] == old(z[a + ny + 1..])
    ensures Val(y[..ny]) > 0
    ensures q == old(Val(z[a..a + ny + 1])) / Val(y[..ny])
    ensures Val(z[a..a + ny]) == old(Val(z[a..a + ny + 1])) % Val(y[..ny])
  {
    hide Subtracted, Added, Val, Pow;
    ghost var z0: seq<Digit> := z[..];
    ghost var ys: seq<Digit> := y[..];
    ghost var W, Y := Val(z0[a..a + ny + 1]), Val(ys[..ny]);
    assert ys[..ny] == y[..ny] && z0[a..a + ny + 1] == z[a..a + ny + 1];
    q := trial;
    var num, t2 := MulSub(z, y, a, ny, nyzero, q);
    AfterSubtract(z[..], z0, ys, a, ny, q, num, t2);
    num := num + z[a + ny] - t2;
    ValBound(ys[..ny]);
    ValBound(z[..][a..a + ny]);
    PendingBorrow(Val(z[..][a..a + ny]), Pow(ny), num, W - q * Y);
    SubtractedFrame(z[..], z0, ys, a, ny, trial, num - z[a + ny] + t2, t2);
    while num != 0
      invariant ys == y[..]
      invariant -1 <= num <= 0 && q >= 0
      invariant Val(z[..][a..a + ny]) + num * Pow(ny) == W - q * Y < Y
      invariant Frame(z[..], z0, a, ny)
      decreases q
    {
      ghost var before: seq<Digit> := z[..];
      ValBound(before[a..a + ny]);
      assert q > 0 by {
        assert q == 0 ==> q * Y == 0;
      }
      q := q - 1;
      num := AddBack(z, y, a, ny);
      AfterAddBack(before, z[..], ys, a, ny, W, q + 1, num);
      num := num - 1;
    }
    ValBound(z[..][a..a + ny]);
    assert z[..][a..a + ny] == z[a..a + ny];
    assert z[..][..a] == z[..a] && z[..][a + ny + 1..] == z[a + ny + 1..];
    assert z0[..a] == old(z[..a]) && z0[a + ny + 1..] == old(z[a + ny + 1..]);
    DivModUnique(W, Y, q, Val(z[a..a + ny]));
  }

  // ---------------------------------------------------------------- bigdivrem1

  /** z holds the remaining dividend below j = a+ny and the quotient digits from there on. */
  ghost predicate Divided(z: seq<Digit>, a: nat, ny: nat, Y: int, Z0: int) {
    && a + ny <= |z|
    && Val(z[..a + ny]) + (Y * Pow(a)) * Val(z[a + ny..]) == Z0
    && Val(z[a..a + ny]) < Y
  }

  lemma DividedStep(zb: seq<Digit>, za: seq<Digit>, a: nat, ny: nat, Y: int, Z0: int)
    requires Divided(zb, a + 1, ny, Y, Z0) && |za| == |zb| && a + ny < |zb|
    requires Y > 0
    requires za[..a] == zb[..a] && za[a + ny + 1..] == zb[a + ny + 1..]
    requires za[a + ny] == Val(zb[a..a + ny + 1]) / Y
    requires Val(za[a..a + ny]) == Val(zb[a..a + ny + 1]) % Y
    ensures Divided(za, a, ny, Y, Z0)
  {
    var W := Val(zb[a..a + ny + 1]);
    var q, r := W / Y, W % Y;
    var P, T := Pow(a), Val(zb[a + ny + 1..]);
    assert zb[..a + 1 + ny] == zb[..a] + zb[a..a + ny + 1];
    ValConcat(zb[..a], zb[a..a + ny + 1]);
    assert za[..a + ny] == za[..a] + za[a..a + ny];
    ValConcat(za[..a], za[a..a + ny]);
    assert za[a + ny..][1..] == za[a + ny + 1..];
    assert Val(za[a + ny..]) == q + B * T;
    DividedArithmetic(Val(zb[..a]), P, W, q, r, Y, T, Z0);
  }

  lemma DividedArithmetic(low: int, P: int, W: int, q: int, r: int, Y: int, T: int, Z0: int)
    requires Y > 0 && q == W / Y && r == W % Y
    requires (low + P * W) + (Y * (B * P)) * T == Z0
    ensures (low + P * r) + (Y * P) * (q + B * T) == Z0
  {
    assert W == q * Y + r;
    assert P * W == P * r + (Y * P) * q;
    assert (Y * P) * (q + B * T) == (Y * P) * q + (Y * (B * P)) * T;
  }

  lemma DividedStart(z: seq<Digit>, ny: nat, Y: int)
    requires ny <= |z| && Val(z[|z| - ny..]) < Y
    ensures Divided(z, |z| - ny, ny, Y, Val(z))
  {
    hide Val, Pow;
    assert z[..|z|] == z && z[|z| - ny..|z|] == z[|z| - ny..] && z[|z|..] == [];
    ValZeros([]);
    assert (Y * Pow(|z| - ny)) * 0 == 0;
  }

  lemma DividedWindow(z: seq<Digit>, a: nat, ny: nat, Y: int, Z0: int)
    requires Divided(z, a + 1, ny, Y, Z0)
    ensures a + ny < |z| && Val(z[a..a + ny + 1]) < B * Y
  {
  }

  lemma DividedEnd(z: seq<Digit>, ny: nat, Y: int, Z0: int)
    requires Divided(z, 0, ny, Y, Z0)
    ensures Val(z[..ny]) + Y * Val(z[ny..]) == Z0 && Val(z[..ny]) < Y
  {
    assert z[0..ny] == z[..ny];
    assert Y * Pow(0) == Y;
  }

  /** `bigdivrem1`: z ends with the remainder in its ny low digits and the quotient above them. */
  method DivRem1(z: array<Digit>, y: array<Digit>, ny: nat)
    requires z != y && 0 < ny <= y.Length && ny < z.Length
    requires 2 * y[ny - 1] >= B
    requires Val(z[z.Length - ny..]) < Val(y[..ny])
    modifies z
    ensures Val(y[..ny]) > 0
    ensures Val(z[..ny]) + Val(y[..ny]) * Val(z[ny..]) == old(Val(z[..]))
    ensures Val(z[..ny]) < Val(y[..ny])
  {
    hide Divided, Val;
    ghost var z0: seq<Digit> := z[..];
    ghost var ys: seq<Digit> := y[..];
    ghost var Y := Val(ys[..ny]);
    assert ys[..ny] == y[..ny];
    var nyzero := 0;
    while y[nyzero] == 0
      invariant nyzero < ny && forall k :: 0 <= k < nyzero ==> y[k] == 0
      decreases ny - nyzero
    {
      nyzero := nyzero + 1;
    }
    var j := z.Length - 1;
    assert z0[z.Length - ny..] == z[z.Length - ny..];
    DividedStart(z0, ny, Y);
    while j >= ny
      invariant ny - 1 <= j < z.Length
      invariant ys == y[..]
      invariant Divided(z[..], j + 1 - ny, ny, Y, Val(z0))
    {
      ghost var before: seq<Digit> := z[..];
      DividedWindow(before, j - ny, ny, Y, Val(z0));
      assert before[j - ny..j + 1] == z[j - ny..j + 1];
      DivDigit(z, y, j - ny, ny, nyzero);
      assert z[..][..j - ny] == z[..j - ny] && z[..][j + 1..] == z[j + 1..] && z[..][j - ny..j] == z[j - ny..j];
      DividedStep(before, z[..], j - ny, ny, Y, Val(z0));
      j := j - 1;
    }
    DividedEnd(z[..], ny, Y, Val(z0));
    assert z[..][..ny] == z[..ny] && z[..][ny..] == z[ny..];
  }
}
