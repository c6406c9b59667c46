/** Bignums to text: `big2str_orig`, `big2str_karatsuba`, the power cache and `rb_big2str0`. */
module BigStr {
  import opened Arith
  import opened Digits
  import opened BigMul
  import opened BigDivMod
  import opened Radix
  import opened Wrappers

  // ---------------------------------------------------------------- the plain loop

  /** The w characters written hold the w low digits of v; x is what is still to be written. */
  ghost predicate Written(s: string, v: nat, x: int, base: int, w: nat) {
    && 2 <= base <= 36 && x >= 0
    && exists r: nat :: s == ToBase(r, base, w) && r < IntPow(base, w) && v == x * IntPow(base, w) + r
  }

  lemma WrittenNone(v: nat, base: int)
    requires 2 <= base <= 36
    ensures Written([], v, v, base, 0)
  {
    assert IntPow(base, 0) == 1;
    assert [] == ToBase(0, base, 0) && 0 < IntPow(base, 0) && v == v * IntPow(base, 0) + 0;
  }

  lemma WriteArithmetic(v: int, x: int, P: int, r: nat, q: int, d: nat, base: int)
    requires x == q * base + d && d < base && r < P && v == x * P + r
    ensures 0 <= d * P + r < base * P && v == q * (base * P) + (d * P + r)
  {
    MulMono(0, d, P);
    MulMono(d + 1, base, P);
    assert (d + 1) * P == d * P + P;
    assert (q * base + d) * P == q * (base * P) + d * P;
  }

  lemma IntPowNext(base: int, w: nat)
    ensures IntPow(base, w + 1) == base * IntPow(base, w)
  {
  }

  /** Writing the next digit in front. */
  lemma WriteDigit(s: string, v: nat, x: int, q: int, d: nat, base: int, w: nat)
    requires Written(s, v, x, base, w) && x == q * base + d && d < base && q >= 0
    ensures Written([RadixChar(d)] + s, v, q, base, w + 1)
  {
    hide ToBase, IntPow;
    var P := IntPow(base, w);
    var r: nat :| s == ToBase(r, base, w) && r < P && v == x * P + r;
    WriteArithmetic(v, x, P, r, q, d, base);
    IntPowNext(base, w);
    ToBaseConcat(d * P + r, d, r, base, 1, w);
    OneDigit(d, base);
    assert [RadixChar(d)] + s == ToBase(d * P + r, base, w + 1);
  }

  /** Nothing left to write: the characters are all of v. */
  lemma WrittenAll(s: string, v: nat, x: int, base: int, w: nat)
    requires Written(s, v, x, base, w) && (x == 0 || v < IntPow(base, w))
    ensures x == 0 && v < IntPow(base, w) && s == ToBase(v, base, w)
  {
    hide IntPow, ToBase;
    var P := IntPow(base, w);
    var r: nat :| s == ToBase(r, base, w) && r < P && v == x * P + r;
    NoQuotient(x, P, r, v);
  }

  lemma NoQuotient(x: int, P: int, r: int, v: int)
    requires x >= 0 && 0 <= r < P && v == x * P + r && (x == 0 || v < P)
    ensures x == 0 && v == r
  {
    if x > 0 {
      MulMono(1, x, P);
      assert false;
    }
  }

  lemma Hbase(base: int)
    requires 2 <= base <= 36
    ensures IntPow(base, 4) == (base * base) * (base * base) && 0 < (base * base) * (base * base) < B
  {
    assert IntPow(base, 1) == base * IntPow(base, 0);
    IntPowAdd(base, 1, 1);
    IntPowAdd(base, 2, 2);
    MulMono(base, 36, base);
    MulMono(1, base, base);
    var sq := base * base;
    MulMono(sq, 1296, sq);
    MulMono(1, sq, sq);
  }

  /** What rest = x * base^k + num becomes when its last digit is taken. */
  lemma TakeDigit(rest: int, x: nat, num: nat, base: int, k: nat) returns (rest1: int)
    requires base >= 2 && k > 0 && num < IntPow(base, k) && rest == x * IntPow(base, k) + num
    ensures 0 <= num / base < IntPow(base, k - 1)
    ensures rest == rest1 * base + num % base && rest1 >= 0
    ensures rest1 == x * IntPow(base, k - 1) + num / base
  {
    var P := IntPow(base, k - 1);
    IntPowPos(base, k - 1);
    var q, d := num / base, num % base;
    assert num == q * base + d;
    DivAtLeast(num, base, 0);
    MulCancel(q, P - 1, base);
    assert x * (base * P) == (x * P) * base;
    MulMono(0, x, P);
    rest1 := x * P + q;
  }

  /** The inner loop: writes up to four characters of num, in front of the characters at start. */
  method WriteGroup(ptr: array<char>, p: nat, len: nat, start: nat, num0: nat, base: int, trim: bool, more: bool,
                    ghost v: nat, ghost x: nat) returns (j: nat)
    requires 2 <= base <= 36 && p + len <= ptr.Length && 0 < start <= len
    requires num0 < IntPow(base, 4) && v < IntPow(base, len)
    requires !more ==> x == 0
    requires Written(ptr[p + start..p + len], v, x * IntPow(base, 4) + num0, base, len - start)
    modifies ptr
    ensures j < start && ptr[..p] == old(ptr[..p]) && ptr[p + len..] == old(ptr[p + len..])
    ensures Written(ptr[p + j..p + len], v, x, base, len - j)
  {
    hide Written, IntPow;
    j := start;
    var num := num0;
    var k := 4;
    ghost var rest := x * IntPow(base, 4) + num0;
    while k > 0
      invariant 0 <= k <= 4 && 0 < j <= start && (j == start ==> k == 4)
      invariant ptr[..p] == old(ptr[..p]) && ptr[p + len..] == old(ptr[p + len..])
      invariant 0 <= num < IntPow(base, k) && rest == x * IntPow(base, k) + num
      invariant Written(ptr[p + j..p + len], v, rest, base, len - j)
    {
      ghost var before := ptr[p + j..p + len];
      ghost var rest1 := TakeDigit(rest, x, num, base, k);
      WriteDigit(before, v, rest, rest1, num % base, base, len - j);
      k := k - 1;
      j := j - 1;
      ptr[p + j] := RadixChar(num % base);
      assert ptr[p + j..p + len] == [RadixChar(num % base)] + before;
      rest := rest1;
      num := num / base;
      if j == 0 || (trim && !more && num == 0) {
        break;
      }
    }
    GroupEnd(ptr[p + j..p + len], v, x, num, rest, base, k, len - j, len, more);
  }

  /** However the group ends, nothing of num is left: it is used up, or zero, or there is no more room. */
  lemma GroupEnd(s: string, v: nat, x: nat, num: nat, rest: int, base: int, k: nat, w: nat, len: nat, more: bool)
    requires 2 <= base <= 36 && num < IntPow(base, k) && rest == x * IntPow(base, k) + num
    requires Written(s, v, rest, base, w) && v < IntPow(base, len)
    requires !more ==> x == 0
    requires k == 0 || w == len || (!more && num == 0)
    ensures Written(s, v, x, base, w)
  {
    if k == 0 {
      assert IntPow(base, 0) == 1;
    } else if w == len {
      WrittenAll(s, v, rest, base, w);
      IntPowPos(base, k);
      hide IntPow, Written;
      if x > 0 {
        MulMono(1, x, IntPow(base, k));
        assert false;
      }
    } else {
      assert 0 * IntPow(base, k) == 0;
    }
  }

  /** `big2str_orig`: destroys ds, and writes its value at ptr[p..p+len], padded to len characters or
      (trim) without leading zeros and moved to the front. */
  method Big2StrOrig(ds: array<Digit>, base: int, ptr: array<char>, p: nat, len: nat, trim: bool) returns (out: nat)
    requires 2 <= base <= 36 && p + len <= ptr.Length
    requires Val(ds[..]) < IntPow(base, len) && ds.Length > 0
    modifies ds, ptr
    ensures out <= len && ptr[..p] == old(ptr[..p]) && ptr[p + len..] == old(ptr[p + len..])
    ensures !trim ==> ptr[p..p + out] == ToBase(old(Val(ds[..])), base, len)
    ensures trim ==> ptr[p..p + out] == Minimal(old(Val(ds[..])), base)
  {
    hide Written, IntPow, Val, ToBase, Minimal;
    ghost var v := Val(ds[..]);
    var hbase := (base * base) * (base * base);
    Hbase(base);
    var i, j := ds.Length, len;
    assert ds[..i] == ds[..];
    WrittenNone(v, base);
    assert ptr[p + j..p + len] == [];
    hide Written, IntPow, Val;
    while i > 0 && j > 0
      invariant 0 <= i <= ds.Length && 0 <= j <= len && (!trim ==> i == ds.Length)
      invariant ptr[..p] == old(ptr[..p]) && ptr[p + len..] == old(ptr[p + len..])
      invariant Written(ptr[p + j..p + len], v, Val(ds[..i]), base, len - j)
      decreases j
    {
      ghost var x := Val(ds[..i]);
      var num := DivSmall(ds, i, hbase);
      ghost var x1 := Val(ds[..i]);
      if trim && ds[i - 1] == 0 {
        ValTrim(ds[..i], i - 1);
        assert ds[..i][..i - 1] == ds[..i - 1];
        i := i - 1;
      }
      EmptyIsZero(ds[..i]);
      j := WriteGroup(ptr, p, len, j, num, base, trim, i > 0, v, x1);
    }
    EmptyIsZero(ds[..i]);
    WrittenAll(ptr[p + j..p + len], v, Val(ds[..i]), base, len - j);
    if trim {
      out := TrimFront(ptr, p, j, len, base, v);
    } else {
      out := len;
    }
  }

  lemma EmptyIsZero(s: seq<Digit>)
    ensures s == [] ==> Val(s) == 0
  {
  }

  /** Skips zeros and moves the rest to the front. */
  method TrimFront(ptr: array<char>, p: nat, start: nat, len: nat, base: int, ghost v: nat) returns (out: nat)
    requires 2 <= base <= 36 && start <= len && p + len <= ptr.Length
    requires v < IntPow(base, len - start) && ptr[p + start..p + len] == ToBase(v, base, len - start)
    modifies ptr
    ensures out <= len && ptr[..p] == old(ptr[..p]) && ptr[p + len..] == old(ptr[p + len..])
    ensures ptr[p..p + out] == Minimal(v, base)
  {
    hide ToBase, IntPow, Minimal;
    var j := start;
    while j < len && ptr[p + j] == '0'
      invariant start <= j <= len && unchanged(ptr)
      invariant v < IntPow(base, len - j) && ptr[p + j..p + len] == ToBase(v, base, len - j)
    {
      LeadingDigit(v, base, len - j);
      assert ptr[p + j..p + len][0] == '0';
      assert ptr[p + j + 1..p + len] == ptr[p + j..p + len][1..];
      j := j + 1;
    }
    if j < len {
      LeadingDigit(v, base, len - j);
      assert ptr[p + j..p + len][0] == ptr[p + j];
    } else {
      NothingLeft(v, base);
    }
    assert ptr[p + j..p + len] == Minimal(v, base);
    out := len - j;
    assert p + j + out == p + len;
    MoveDown(ptr, p, j, out);
  }

  lemma NothingLeft(v: nat, base: int)
    requires 2 <= base <= 36 && v < IntPow(base, 0)
    ensures ToBase(v, base, 0) == Minimal(v, base)
  {
  }

  /** MEMMOVE towards the front. */
  method MoveDown(ptr: array<char>, p: nat, j: nat, n: nat)
    requires p + j + n <= ptr.Length
    modifies ptr
    ensures ptr[..p] == old(ptr[..p]) && ptr[p + j + n..] == old(ptr[p + j + n..])
    ensures ptr[p..p + n] == old(ptr[p + j..p + j + n])
  {
    ghost var old0 := ptr[..];
    var t := 0;
    while t < n
      invariant 0 <= t <= n
      invariant forall k :: p <= k < p + t ==> ptr[k] == old0[k + j]
      invariant forall k :: p + t <= k < ptr.Length ==> ptr[k] == old0[k]
      invariant forall k :: 0 <= k < p ==> ptr[k] == old0[k]
    {
      ptr[p + t] := ptr[p + j + t];
      t := t + 1;
    }
    assert ptr[p..p + n] == old0[p + j..p + j + n];
  }

  // ---------------------------------------------------------------- powers of the base

  const KARATSUBA_DIGITS: nat := 128 // 1 << LOG2_KARATSUBA_DIGITS
  const LOG2_KARATSUBA_DIGITS: nat := 7
  const MAX_BIG2STR_TABLE_ENTRIES: nat := 64

  /** ceil_log2, which the code computes with bit tricks */
  function CeilLog2(n: nat): (m: nat)
    requires n > 0
    ensures n <= Pow2(m) && (m > 0 ==> Pow2(m - 1) < n)
  {
    if n == 1 then 0
    else
      var h := CeilLog2((n + 1) / 2);
      assert h > 0 ==> Pow2(h) == 2 * Pow2(h - 1);
      h + 1
  }

  predicate IsPower(t: Big, base: int, e: nat) {
    t.Int() == IntPow(base, e) && Trimmed(t.mag)
  }

  lemma SquarePower(base: int, e: nat, v: int)
    requires v == IntPow(base, e)
    ensures v * v == IntPow(base, 2 * e)
  {
    IntPowAdd(base, e, e);
  }

  /** big2str_power_cache: entry (base, i) is base^(128 * 2^i) once it has been asked for. */
  class PowerCache {
    var cache: map<(int, nat), Big>

    ghost predicate Valid()
      reads this
    {
      forall k :: k in cache ==> IsPower(cache[k], k.0, KARATSUBA_DIGITS * Pow2(k.1))
    }

    constructor ()
      ensures Valid() && cache == map[]
    {
      cache := map[];
    }

    /** power_cache_get_power0 */
    method GetPower0(base: int, i: nat) returns (t: Big)
      requires Valid() && 2 <= base <= 36
      modifies this
      ensures Valid() && IsPower(t, base, KARATSUBA_DIGITS * Pow2(i))
      decreases i
    {
      hide IsPower;
      if (base, i) !in cache {
        if i == 0 {
          t := FirstPower(base);
        } else {
          var t0 := GetPower0(base, i - 1);
          t := NextPower(t0, base, KARATSUBA_DIGITS * Pow2(i - 1));
          assert 2 * (KARATSUBA_DIGITS * Pow2(i - 1)) == KARATSUBA_DIGITS * Pow2(i);
        }
        cache := cache[(base, i) := t];
      } else {
        assert (base, i) in cache;
      }
      t := cache[(base, i)];
    }

    /** power_cache_get_power: base^m1, where m1 is the least power of two that is at least n1 */
    method GetPower(base: int, n1: nat) returns (t: Big, m1: nat)
      requires Valid() && 2 <= base <= 36 && n1 > KARATSUBA_DIGITS
      modifies this
      ensures Valid() && IsPower(t, base, m1)
      ensures n1 <= m1 < 2 * n1 && m1 % 2 == 0
    {
      hide IsPower, Pow2;
      var m := CeilLog2(n1);
      LogAtLeast(m, n1);
      m1 := Pow2(m);
      Pow2Next(m - 1);
      var i := m - LOG2_KARATSUBA_DIGITS;
      if i >= MAX_BIG2STR_TABLE_ENTRIES {
        i := MAX_BIG2STR_TABLE_ENTRIES - 1;
      }
      t := GetPower0(base, i);
      var j := KARATSUBA_DIGITS * Pow2(i);
      ghost var e := i;
      while n1 > j
        invariant 0 <= e <= m - LOG2_KARATSUBA_DIGITS && j == KARATSUBA_DIGITS * Pow2(e)
        invariant Valid() && IsPower(t, base, j)
        decreases m - e
      {
        Reached(m, e, n1);
        Pow2Next(e);
        t := NextPower(t, base, j);
        j := j * 2;
        e := e + 1;
      }
      Reached(m, e, n1);
    }
  }

  lemma LogAtLeast(m: nat, n1: nat)
    requires n1 > KARATSUBA_DIGITS && n1 <= Pow2(m)
    ensures m > LOG2_KARATSUBA_DIGITS
  {
    assert Pow2(7) == 128;
    if m <= LOG2_KARATSUBA_DIGITS {
      Pow2Mono(m, 7);
      assert false;
    }
  }

  /** 128 * 2^e reaches n1 exactly when e is the last step. */
  lemma Reached(m: nat, e: nat, n1: nat)
    requires LOG2_KARATSUBA_DIGITS <= m && e <= m - LOG2_KARATSUBA_DIGITS
    requires n1 <= Pow2(m) && (m > 0 ==> Pow2(m - 1) < n1)
    ensures n1 <= KARATSUBA_DIGITS * Pow2(e) <==> e == m - LOG2_KARATSUBA_DIGITS
    ensures e == m - LOG2_KARATSUBA_DIGITS ==> KARATSUBA_DIGITS * Pow2(e) == Pow2(m)
  {
    assert Pow2(7) == 128;
    Pow2Add(7, e);
    if e < m - 7 {
      Pow2Mono(7 + e, m - 1);
    }
  }

  method FirstPower(base: int) returns (t: Big)
    requires 2 <= base <= 36
    ensures IsPower(t, base, KARATSUBA_DIGITS * Pow2(0))
  {
    var b := Big(true, [base]);
    ValOne(base);
    Pow2Of32();
    Pow2Mono(32, FIXNUM_BITS);
    var p := BigPow(b, KARATSUBA_DIGITS);
    t := p.value;
  }

  method NextPower(t: Big, base: int, e: nat) returns (r: Big)
    requires IsPower(t, base, e)
    ensures IsPower(r, base, 2 * e)
  {
    var sq := Sqr(t.mag);
    SquareSign(t);
    SquarePower(base, e, t.Int());
    r := Big(true, sq);
  }

  // ---------------------------------------------------------------- divide and conquer

  lemma PowerSplits(x: nat, base: int, len: nat, m1: nat, P: int, q: int, r: int)
    requires 2 <= base <= 36 && m1 <= len && x < IntPow(base, len) && P == IntPow(base, m1)
    requires Floored(x, P, q, r)
    ensures 0 <= q < IntPow(base, len - m1) && 0 <= r < P && x == q * P + r
  {
    hide IntPow;
    IntPowPos(base, m1);
    IntPowAdd(base, len - m1, m1);
    var Q := IntPow(base, len - m1);
    MulCancel(-1, q - 1, P);
    MulCancel(q, Q - 1, P);
  }

  lemma PowerIsNormal(t: Big, base: int, e: nat)
    requires 2 <= base && IsPower(t, base, e)
    ensures t.Normal() && t.Int() > 0
  {
    IntPowPos(base, e);
    if |t.mag| == 1 && t.mag[0] == 0 {
      ValZeros(t.mag);
      assert false;
    }
  }

  /** What a printed number looks like, padded or trimmed. */
  function Printed(v: nat, base: int, len: nat, trim: bool): string
    requires 2 <= base <= 36
  {
    if trim then Minimal(v, base) else ToBase(v, base, len)
  }

  lemma PrintedZero(base: int, len: nat)
    requires 2 <= base <= 36
    ensures Printed(0, base, len, true) == [] && Printed(0, base, len, false) == seq(len, _ => '0')
  {
    ZeroDigits(base, len);
  }

  /** The high part, trimmed or not, followed by the low part: trimmed only if there is no high part. */
  lemma PrintedSplit(x: nat, q: nat, r: nat, base: int, len: nat, m1: nat, trim: bool)
    requires 2 <= base <= 36 && m1 <= len && r < IntPow(base, m1) && x == q * IntPow(base, m1) + r
    ensures var hi := Printed(q, base, len - m1, trim);
            Printed(x, base, len, trim) == hi + Printed(r, base, m1, |hi| == 0 && trim && q == 0)
    ensures trim && len > m1 ==> (|Printed(q, base, len - m1, trim)| == 0 <==> q == 0)
    ensures !trim && len > m1 ==> |Printed(q, base, len - m1, trim)| > 0
  {
    if trim {
      if q > 0 {
        MinimalConcat(x, q, r, base, m1);
        var q1, d := SplitDigit(q, base);
        LastDigit(q, q1, d, base, 0);
      } else {
        assert 0 * IntPow(base, m1) == 0;
      }
    } else {
      ToBaseConcat(x, q, r, base, len - m1, m1);
    }
  }

  /** memset(ptr, '0', len) */
  method FillZeros(ptr: array<char>, p: nat, len: nat)
    requires p + len <= ptr.Length
    modifies ptr
    ensures ptr[..p] == old(ptr[..p]) && ptr[p + len..] == old(ptr[p + len..])
    ensures ptr[p..p + len] == seq(len, _ => '0')
  {
    var t := 0;
    while t < len
      invariant 0 <= t <= len && ptr[..p] == old(ptr[..p]) && ptr[p + len..] == old(ptr[p + len..])
      invariant forall k :: p <= k < p + t ==> ptr[k] == '0'
    {
      ptr[p + t] := '0';
      t := t + 1;
    }
  }

  method PrintShort(x: seq<Digit>, base: int, ptr: array<char>, p: nat, len: nat, trim: bool) returns (out: nat)
    requires 2 <= base <= 36 && p + len <= ptr.Length && x != [] && Val(x) < IntPow(base, len)
    modifies ptr
    ensures out <= len && ptr[..p] == old(ptr[..p]) && ptr[p + len..] == old(ptr[p + len..])
    ensures ptr[p..p + out] == Printed(Val(x), base, len, trim)
  {
    hide IntPow, Val, ToBase, Minimal;
    var ds := new Digit[|x|](i requires 0 <= i < |x| => x[i]);
    assert ds[..] == x;
    out := Big2StrOrig(ds, base, ptr, p, len, trim);
  }

  /** The quotient and remainder by the cached power. */
  method SplitAtPower(x: seq<Digit>, base: int, n1: nat, len: nat, pc: PowerCache)
      returns (q: seq<Digit>, r: seq<Digit>, m1: nat)
    requires 2 <= base <= 36 && 2 * n1 <= len + 1 && n1 > KARATSUBA_DIGITS
    requires Val(x) < IntPow(base, len) && pc.Valid()
    modifies pc
    ensures pc.Valid() && 0 < m1 < len
    ensures Val(q) < IntPow(base, len - m1) && Val(r) < IntPow(base, m1)
    ensures Val(x) == Val(q) * IntPow(base, m1) + Val(r)
  {
    hide IntPow, Val;
    var b, mm := pc.GetPower(base, n1);
    m1 := mm;
    PowerIsNormal(b, base, m1);
    var res := DivMod(Big(true, x), b);
    PowerSplits(Val(x), base, len, m1, b.Int(), res.div.Int(), res.mod.Int());
    q, r := res.div.mag, res.mod.mag;
  }

  /** `big2str_karatsuba`: splits at base^m1 until the pieces are short. */
  method Big2StrKaratsuba(x: seq<Digit>, base: int, ptr: array<char>, p: nat, n1: nat, len: nat, trim: bool,
      pc: PowerCache)
    returns (out: nat)
    requires 2 <= base <= 36 && p + len <= ptr.Length && 2 * n1 <= len + 1
    requires Val(x) < IntPow(base, len) && pc.Valid()
    modifies ptr, pc
    ensures pc.Valid() && out <= len && ptr[..p] == old(ptr[..p]) && ptr[p + len..] == old(ptr[p + len..])
    ensures ptr[p..p + out] == Printed(Val(x), base, len, trim)
    decreases len, 1
  {
    hide Printed, IntPow, Val;
    if IsZero(Big(true, x)) {
      ValZeros(x);
      PrintedZero(base, len);
      if trim {
        return 0;
      }
      FillZeros(ptr, p, len);
      return len;
    }
    if n1 <= KARATSUBA_DIGITS {
      out := PrintShort(x, base, ptr, p, len, trim);
      return;
    }
    out := PrintHalves(x, base, ptr, p, n1, len, trim, pc);
  }

  /** The quotient and the remainder by a power of the base near its middle, one after the other. */
  method PrintHalves(x: seq<Digit>, base: int, ptr: array<char>, p: nat, n1: nat, len: nat, trim: bool, pc: PowerCache)
    returns (out: nat)
    requires 2 <= base <= 36 && p + len <= ptr.Length && 2 * n1 <= len + 1 && n1 > KARATSUBA_DIGITS
    requires Val(x) < IntPow(base, len) && pc.Valid()
    modifies ptr, pc
    ensures pc.Valid() && out <= len && ptr[..p] == old(ptr[..p]) && ptr[p + len..] == old(ptr[p + len..])
    ensures ptr[p..p + out] == Printed(Val(x), base, len, trim)
    decreases len, 0
  {
    hide Printed, IntPow, Val;
    var q, r, m1 := SplitAtPower(x, base, n1, len, pc);
    PrintedSplit(Val(x), Val(q), Val(r), base, len, m1, trim);
    var lh := Big2StrKaratsuba(q, base, ptr, p, (len - m1) / 2, len - m1, trim, pc);
    assert |ptr[p..p + lh]| == lh;
    ghost var mid := ptr[..];
    var ll := Big2StrKaratsuba(r, base, ptr, p + lh, m1 / 2, m1, lh == 0 && trim, pc);
    out := lh + ll;
    TwoWrites(old(ptr[..]), mid, ptr[..], p, lh, ll, len - m1, m1);
    assert ptr[..][p..p + lh + ll] == ptr[p..p + out];
  }

  /** Two writes, one after the other, inside ptr[p..p+a+b]. */
  lemma TwoWrites(s0: string, s1: string, s2: string, p: nat, lh: nat, ll: nat, a: nat, b: nat)
    requires |s0| == |s1| == |s2| && p + a + b <= |s0| && lh <= a && ll <= b
    requires s1[..p] == s0[..p] && s1[p + a..] == s0[p + a..]
    requires s2[..p + lh] == s1[..p + lh] && s2[p + lh + b..] == s1[p + lh + b..]
    ensures s2[..p] == s0[..p] && s2[p + a + b..] == s0[p + a + b..]
    ensures s2[p..p + lh + ll] == s1[p..p + lh] + s2[p + lh..p + lh + ll]
  {
    assert s2[..p] == s2[..p + lh][..p] && s1[..p] == s1[..p + lh][..p];
    assert s2[p..p + lh] == s2[..p + lh][p..] && s1[p..p + lh] == s1[..p + lh][p..];
    assert s2[p + a + b..] == s2[p + lh + b..][a - lh..] && s1[p + a + b..] == s1[p + lh + b..][a - lh..];
    assert s1[p + a + b..] == s1[p + a..][b..] && s0[p + a + b..] == s0[p + a..][b..];
  }

  // ---------------------------------------------------------------- whole numbers

  /** The text of x: a minus sign (or, untrimmed, any sign) and its digits; "0" for zero. */
  function Text(x: Big, base: int, len: nat, trim: bool): string
    requires 2 <= base <= 36
  {
    if Val(x.mag) == 0 then "0"
    else (if trim && x.sign then "" else if x.sign then "+" else "-") + Printed(Val(x.mag), base, len, trim)
  }

  /** `rb_big2str0`; n2 is the estimate of the length that the code takes from a table of logarithms. */
  method Big2Str0(x: Big, base: int, trim: bool, n2: nat, pc: PowerCache) returns (s: Option<string>)
    requires pc.Valid()
    requires 2 <= base <= 36 ==> Val(x.mag) < IntPow(base, n2)
    modifies pc
    ensures pc.Valid()
    ensures s.None? <==> Val(x.mag) != 0 && !(2 <= base <= 36)
    ensures Val(x.mag) == 0 ==> s == Some("0")
    ensures 2 <= base <= 36 ==> s == Some(Text(x, base, n2, trim))
  {
    hide Printed, IntPow, Val;
    if IsZero(x) {
      ValZeros(x.mag);
      return Some("0");
    }
    NotZero(x.mag);
    if base < 2 || 36 < base {
      return None;
    }
    var n1 := (n2 + 1) / 2;
    var ptr := new char[n2 + 1](_ => ' ');
    ptr[0] := if x.sign then '+' else '-';
    var off := if trim && x.sign then 0 else 1;
    assert off == 1 ==> ptr[..1] == [ptr[0]];
    var len;
    if n1 <= KARATSUBA_DIGITS {
      len := PrintShort(x.mag, base, ptr, off, n2, trim);
    } else {
      len := Big2StrKaratsuba(x.mag, base, ptr, off, n1, n2, trim, pc);
    }
    s := Some(ptr[..off + len]);
    assert ptr[..off + len] == ptr[..off] + ptr[off..off + len];
  }

  // ---------------------------------------------------------------- reading

  /** Bits reserved for each character: the switch on the base in `rb_cstr_to_inum`. */
  function BitsPerChar(base: int): nat {
    if base <= 2 then 1 else if base == 3 then 2 else if base <= 8 then 3
    else if base <= 16 then 4 else if base <= 32 then 5 else 6
  }

  lemma BaseFitsBits(base: int)
    requires 2 <= base <= 36
    ensures base <= Pow2(BitsPerChar(base))
  {
    assert Pow2(1) == 2 && Pow2(2) == 4 && Pow2(3) == 8 && Pow2(4) == 16 && Pow2(5) == 32 && Pow2(6) == 64;
  }

  lemma {:induction false} Pow2Times(bits: nat, n: nat)
    ensures IntPow(Pow2(bits), n) == Pow2(bits * n)
  {
    if n == 0 {
      assert bits * n == 0;
    } else {
      Pow2Times(bits, n - 1);
      assert bits * n == bits + bits * (n - 1);
      Pow2Add(bits, bits * (n - 1));
    }
  }

  lemma {:induction false} IntPowMono(a: int, b: int, n: nat)
    requires 0 <= a <= b
    ensures 0 <= IntPow(a, n) <= IntPow(b, n)
  {
    if n > 0 {
      IntPowMono(a, b, n - 1);
      MulMono(a, b, IntPow(a, n - 1));
      MulMono(IntPow(a, n - 1), IntPow(b, n - 1), b);
      MulMono(0, IntPow(a, n - 1), a);
    }
  }

  /** Numbers of n characters fit in the digits that the parser allocates. */
  lemma BufferIsLarge(base: int, n: nat)
    requires 2 <= base <= 36
    ensures IntPow(base, n) <= Pow(BitsPerChar(base) * n / 32 + 1)
  {
    var bits := BitsPerChar(base);
    BaseFitsBits(base);
    IntPowMono(base, Pow2(bits), n);
    Pow2Times(bits, n);
    var total := bits * n;
    PowIsPow2(total / 32 + 1);
    Pow2Mono(total, 32 * (total / 32 + 1));
  }
}
