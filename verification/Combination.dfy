/** Array#combination (`array.c`): the iterative enumerator against the recursive definition. */
module Combination {
  import Arith
  import opened Wrappers

  // ---------------------------------------------------------------- the number of combinations

  /** The binomial coefficient, by Pascal's rule. */
  function Binom(n: nat, k: nat): nat {
    if k == 0 then 1 else if n == 0 then 0 else Binom(n - 1, k - 1) + Binom(n - 1, k)
  }

  lemma {:induction false} BinomOver(n: nat, k: nat)
    requires k > n
    ensures Binom(n, k) == 0
  {
    if n > 0 {
      BinomOver(n - 1, k - 1);
      BinomOver(n - 1, k);
    }
  }

  lemma {:induction false} BinomSymmetric(n: nat, k: nat)
    requires k <= n
    ensures Binom(n, k) == Binom(n, n - k)
  {
    if k == 0 {
      BinomAll(n);
    } else if k == n {
      BinomAll(n);
    } else {
      BinomSymmetric(n - 1, k - 1);
      BinomSymmetric(n - 1, k);
    }
  }

  lemma {:induction false} BinomAll(n: nat)
    ensures Binom(n, n) == 1
  {
    if n > 0 {
      BinomAll(n - 1);
      BinomOver(n - 1, n);
    }
  }

  /** The step of combi_len: the division by k is exact. */
  lemma {:induction false} BinomStep(n: nat, k: nat)
    requires k >= 1
    ensures k * Binom(n, k) == (n - k + 1) * Binom(n, k - 1)
  {
    if n == 0 {
      if k == 1 {
      } else {
        assert Binom(0, k) == 0 && Binom(0, k - 1) == 0;
      }
    } else if k == 1 {
      BinomStep(n - 1, 1);
      assert Binom(n, 1) == 1 + Binom(n - 1, 1);
    } else {
      BinomStep(n - 1, k);
      BinomStep(n - 1, k - 1);
      var c, d, e := Binom(n - 1, k - 1), Binom(n - 1, k), Binom(n - 1, k - 2);
      assert Binom(n, k) == c + d && Binom(n, k - 1) == e + c;
      StepAlgebra(n, k, c, d, e);
    }
  }

  lemma StepAlgebra(n: int, k: int, c: int, d: int, e: int)
    requires k * d == (n - k) * c && (k - 1) * c == (n - k + 1) * e
    ensures k * (c + d) == (n - k + 1) * (e + c)
  {
    assert k * (c + d) == k * c + k * d == k * c + (n - k) * c == n * c;
    assert (n - k + 1) * (e + c) == (n - k + 1) * e + (n - k + 1) * c == (k - 1) * c + (n - k + 1) * c == n * c;
  }

  const LONG_LIMIT := 0x8000_0000_0000_0000

  /** A long after an operation whose exact result is x. */
  function Long(x: int): int { (x + LONG_LIMIT) % (2 * LONG_LIMIT) - LONG_LIMIT }

  /** The loop of combi_len from step i on, with m == n - i + 1. None is the RangeError. */
  function Steps(val: int, i: int, m: int, k: int): Option<int>
    requires i >= 1
    decreases k - i
  {
    if i > k then Some(val)
    else if Long(val * m) < val then None
    else Steps(Long(val * m) / i, i + 1, m - 1, k)
  }

  /** The product of a step wraps around at most downwards, and not at all exactly if it fits. */
  lemma LongIs(x: int)
    requires x >= 0
    ensures Long(x) <= x && (Long(x) == x <==> x < LONG_LIMIT)
  {
    assert (x + LONG_LIMIT) / (2 * LONG_LIMIT) >= 0;
  }

  /** One step from a value that is right or too small: the next one is right if and only if this one was and the
      product fits, and too small otherwise. */
  lemma StepIs(n: nat, i: nat, val: int)
    requires 1 <= i <= n && 0 <= val <= Binom(n, i - 1) && val <= Long(val * (n - i + 1))
    ensures 0 <= Long(val * (n - i + 1)) / i <= Binom(n, i)
    ensures Long(val * (n - i + 1)) / i == Binom(n, i) <==> val == Binom(n, i - 1) && i * Binom(n, i) < LONG_LIMIT
  {
    hide Binom, Long;
    var m, b, c := n - i + 1, Binom(n, i - 1), Binom(n, i);
    BinomStep(n, i);
    Arith.MulMono(0, val, m);
    LongIs(val * m);
    if val == b && i * c < LONG_LIMIT {
      assert Long(val * m) == i * c;
      DivExact(i, c);
    } else {
      Arith.MulMono(val, b, m);
      if val < b {
        Arith.MulMono(val, b - 1, m);
        assert (b - 1) * m == b * m - m;
      }
      assert Long(val * m) < i * c;
      DivBelow(Long(val * m), i, c);
    }
  }

  lemma DivBelow(x: int, i: int, c: int)
    requires i >= 1 && 0 <= x < i * c
    ensures 0 <= x / i < c
  {
    var q := x / i;
    assert x == q * i + x % i;
    Arith.MulCancel(0, q, i);
    if q >= c {
      Arith.MulMono(c, q, i);
      assert false;
    }
  }

  ghost predicate Fits(n: nat, i: nat, k: nat) { forall h :: i <= h <= k ==> h * Binom(n, h) < LONG_LIMIT }

  /** The whole loop: it gives the binomial coefficient if and only if every product fits, and never more than it. */
  lemma {:induction false} StepsIs(n: nat, k: nat, i: nat, val: int)
    requires 1 <= i <= k + 1 && k <= n && 0 <= val <= Binom(n, i - 1)
    ensures var r := Steps(val, i, n - i + 1, k);
            && (r.Some? ==> 0 <= r.value <= Binom(n, k))
            && (r == Some(Binom(n, k)) <==> val == Binom(n, i - 1) && Fits(n, i, k))
    decreases k - i + 1
  {
    hide Binom, Long;
    if i <= k {
      var next := Long(val * (n - i + 1));
      if next >= val {
        StepIs(n, i, val);
        StepsIs(n, k, i + 1, next / i);
      } else {
        RaisedIsLarge(n, i, val);
      }
    }
  }

  /** The range check never refuses a product that fits. */
  lemma RaisedIsLarge(n: nat, i: nat, val: int)
    requires 1 <= i <= n && 0 <= val && Long(val * (n - i + 1)) < val
    ensures val == Binom(n, i - 1) ==> i * Binom(n, i) >= LONG_LIMIT
  {
    hide Binom, Long;
    BinomStep(n, i);
    Arith.MulMono(1, n - i + 1, val);
    LongIs(val * (n - i + 1));
  }

  /** The products grow up to the middle, so that the last one decides. */
  lemma {:induction false} ProductsGrow(n: nat, i: nat, k: nat)
    requires 1 <= i <= k && 2 * k <= n
    ensures i * Binom(n, i) <= k * Binom(n, k)
    decreases k - i
  {
    hide Binom;
    if i < k {
      ProductsGrow(n, i + 1, k);
      BinomStep(n, i + 1);
      Arith.MulMono(i, n - i, Binom(n, i));
    }
  }

  /** The step count of combi_len. */
  function Shorter(n: int, k: int): int { if k * 2 > n then n - k else k }

  /** combi_len is the binomial coefficient of the shorter side. */
  lemma ShorterSide(n: nat, k: nat)
    requires k <= n
    ensures 0 <= 2 * Shorter(n, k) <= n && Binom(n, Shorter(n, k)) == Binom(n, k)
  {
    if k * 2 > n {
      BinomSymmetric(n, k);
    }
  }

  /** combi_len, on longs: the binomial coefficient if and only if the last product of the loop fits a long; otherwise a
      RangeError, or, when the wrapped product passes for a growing one, a number that is too small. */
  method CombiLen(n: int, k: int) returns (val: Option<int>)
    requires n >= 0
    ensures !(0 <= k <= n) ==> val == Some(0)
    ensures 0 <= k <= n ==> (val == Some(Binom(n, k)) <==> Shorter(n, k) * Binom(n, k) < LONG_LIMIT)
    ensures 0 <= k <= n && val.Some? ==> 0 <= val.value <= Binom(n, k)
    ensures Shorter(n, k) > 0 ==> val == Steps(1, 1, n, Shorter(n, k))
  {
    hide Binom, Long;
    BinomNone(n);
    var j := if k * 2 > n then n - k else k;
    if 0 <= k <= n {
      ShorterSide(n, k);
    }
    if j == 0 {
      return Some(1);
    }
    if j < 0 {
      return Some(0);
    }
    LastDecides(n, j);
    StepsIs(n, j, 1, 1);
    var v := 1;
    var i, m := 1, n;
    while i <= j
      invariant 1 <= i <= j + 1 && m == n - i + 1
      invariant Steps(v, i, m, j) == Steps(1, 1, n, j)
    {
      var before := v;
      v := Long(v * m);
      if v < before {
        return None;
      }
      v := v / i;
      i, m := i + 1, m - 1;
    }
    val := Some(v);
  }

  lemma BinomNone(n: nat)
    ensures Binom(n, 0) == 1
  {
  }

  lemma LastDecides(n: nat, k: nat)
    requires 1 <= k && 2 * k <= n
    ensures Fits(n, 1, k) <==> k * Binom(n, k) < LONG_LIMIT
  {
    hide Binom;
    if k * Binom(n, k) < LONG_LIMIT {
      forall h | 1 <= h <= k ensures h * Binom(n, h) < LONG_LIMIT {
        ProductsGrow(n, h, k);
      }
    }
  }

  /** A product that wraps around unnoticed: pairs out of 2^32 + 2 elements. */
  lemma UnnoticedWrap()
    ensures var n := 0x1_0000_0002;
            Steps(1, 1, n, 2) == Some(6442450945) && Binom(n, 2) == 9223372043297226753
  {
    hide Binom;
    var n := 0x1_0000_0002;
    BinomNone(n);
    BinomStep(n, 1);
    BinomStep(n, 2);
    assert Steps(1, 1, n, 2) == Steps(n, 2, n - 1, 2);
    assert Long(n * (n - 1)) == 12884901890;
    assert Steps(n, 2, n - 1, 2) == Steps(6442450945, 3, n - 2, 2);
  }

  lemma DivExact(i: int, b: int)
    requires i >= 1
    ensures i * b / i == b
  {
    Arith.DivModUnique(i * b, i, b, 0);
  }

  // ---------------------------------------------------------------- the combinations

  /** All increasing n-tuples of indices from lo up to len, in lexicographic order. */
  function Combos(lo: nat, len: nat, n: nat): seq<seq<nat>>
    decreases if lo < len then len - lo else 0, n
  {
    if n == 0 then [[]]
    else if lo + n > len then []
    else Each(lo, Combos(lo + 1, len, n - 1)) + Combos(lo + 1, len, n)
  }

  /** Puts x in front of each tuple. */
  function Each(x: nat, ts: seq<seq<nat>>): (r: seq<seq<nat>>)
    ensures |r| == |ts| && forall i :: 0 <= i < |ts| ==> r[i] == [x] + ts[i]
  {
    seq(|ts|, i requires 0 <= i < |ts| => [x] + ts[i])
  }

  /** t is strictly increasing, from lo on and below len. */
  predicate Increasing(t: seq<nat>, lo: nat, len: nat) {
    t == [] || (lo <= t[0] < len && Increasing(t[1..], t[0] + 1, len))
  }

  /** Exactly the increasing tuples. */
  lemma {:induction false} CombosMember(lo: nat, len: nat, n: nat, t: seq<nat>)
    ensures t in Combos(lo, len, n) <==> |t| == n && Increasing(t, lo, len)
    decreases if lo < len then len - lo else 0, n
  {
    hide Combos, Increasing;
    if n == 0 || lo + n > len {
      MemberBase(lo, len, n, t);
    } else {
      MemberStep(lo, len, n, t);
      IncreasingStep(t, lo, len);
      CombosMember(lo + 1, len, n, t);
      if |t| > 0 {
        CombosMember(lo + 1, len, n - 1, t[1..]);
      }
    }
  }

  lemma MemberBase(lo: nat, len: nat, n: nat, t: seq<nat>)
    requires n == 0 || lo + n > len
    ensures t in Combos(lo, len, n) <==> |t| == n && Increasing(t, lo, len)
  {
    if n > 0 && |t| == n && Increasing(t, lo, len) {
      TooTight(t, lo, len);
    }
  }

  lemma IncreasingStep(t: seq<nat>, lo: nat, len: nat)
    requires lo < len
    ensures t != [] ==>
              (Increasing(t, lo, len) <==>
               Increasing(t, lo + 1, len) || (t[0] == lo && Increasing(t[1..], lo + 1, len)))
  {
  }

  lemma MemberStep(lo: nat, len: nat, n: nat, t: seq<nat>)
    requires n > 0 && lo + n <= len
    ensures t in Combos(lo, len, n) <==>
            t in Combos(lo + 1, len, n) || (|t| > 0 && t[0] == lo && t[1..] in Combos(lo + 1, len, n - 1))
  {
    var with, without := Combos(lo + 1, len, n - 1), Combos(lo + 1, len, n);
    assert t in Combos(lo, len, n) <==> t in Each(lo, with) || t in without;
    if |t| > 0 {
      EachMember(lo, with, t);
    }
  }

  lemma EachMember(x: nat, ts: seq<seq<nat>>, t: seq<nat>)
    requires |t| > 0
    ensures t in Each(x, ts) <==> t[0] == x && t[1..] in ts
  {
    if t in Each(x, ts) {
      var i :| 0 <= i < |ts| && Each(x, ts)[i] == t;
      assert t[1..] == ts[i];
    }
    if t[0] == x && t[1..] in ts {
      var i :| 0 <= i < |ts| && ts[i] == t[1..];
      assert Each(x, ts)[i] == t;
    }
  }

  lemma {:induction false} TooTight(t: seq<nat>, lo: nat, len: nat)
    requires Increasing(t, lo, len) && |t| > 0
    ensures lo + |t| <= len
  {
    if |t| > 1 {
      TooTight(t[1..], t[0] + 1, len);
    }
  }

  predicate LexLess(s: seq<nat>, t: seq<nat>) {
    s != [] && t != [] && (s[0] < t[0] || (s[0] == t[0] && LexLess(s[1..], t[1..])))
  }

  /** In lexicographic order, hence each once. */
  lemma {:induction false} CombosSorted(lo: nat, len: nat, n: nat, i: nat, j: nat)
    requires i < j < |Combos(lo, len, n)|
    ensures LexLess(Combos(lo, len, n)[i], Combos(lo, len, n)[j])
    decreases if lo < len then len - lo else 0, n
  {
    hide Combos, LexLess;
    ManyCombos(lo, len, n);
    var with, without := Combos(lo + 1, len, n - 1), Combos(lo + 1, len, n);
    var all := Combos(lo, len, n);
    if j < |with| {
      CombosSorted(lo + 1, len, n - 1, i, j);
      SamePrefix(lo, with[i], with[j]);
    } else if i >= |with| {
      CombosSorted(lo + 1, len, n, i - |with|, j - |with|);
    } else {
      assert all[j] == without[j - |with|];
      CombosMember(lo + 1, len, n, all[j]);
      SmallerFirst(all[i], all[j]);
    }
  }

  lemma ManyCombos(lo: nat, len: nat, n: nat)
    requires |Combos(lo, len, n)| > 1
    ensures n > 0 && lo < len && Combos(lo, len, n) == Each(lo, Combos(lo + 1, len, n - 1)) + Combos(lo + 1, len, n)
  {
  }

  lemma SamePrefix(x: nat, s: seq<nat>, t: seq<nat>)
    requires LexLess(s, t)
    ensures LexLess([x] + s, [x] + t)
  {
    assert ([x] + s)[1..] == s && ([x] + t)[1..] == t;
  }

  lemma SmallerFirst(s: seq<nat>, t: seq<nat>)
    requires s != [] && t != [] && s[0] < t[0]
    ensures LexLess(s, t)
  {
  }

  lemma {:induction false} CombosCount(lo: nat, len: nat, n: nat)
    requires lo <= len
    ensures |Combos(lo, len, n)| == Binom(len - lo, n)
    decreases len - lo, n
  {
    if n == 0 {
    } else if lo + n > len {
      BinomOver(len - lo, n);
    } else {
      CombosCount(lo + 1, len, n - 1);
      CombosCount(lo + 1, len, n);
    }
  }

  // ---------------------------------------------------------------- resuming from a prefix

  /** The combinations still to come when the enumerator holds the prefix p. */
  function From(p: seq<nat>, lo: nat, len: nat, n: nat): seq<seq<nat>>
    requires |p| <= n
    decreases |p|
  {
    if p == [] then Combos(lo, len, n)
    else if p[0] + n > len then []
    else Each(p[0], From(p[1..], p[0] + 1, len, n - 1)) + Combos(p[0] + 1, len, n)
  }

  /** No element of p exceeds the largest index its position takes. */
  predicate InRange(p: seq<nat>, len: nat, n: nat) { forall i :: 0 <= i < |p| ==> p[i] + n <= len + i }

  function Inc(p: seq<nat>): (q: seq<nat>)
    requires p != []
    ensures |q| == |p|
  {
    p[..|p| - 1] + [p[|p| - 1] + 1]
  }

  lemma FromOne(x: nat, lo: nat, len: nat, n: nat)
    requires n >= 1
    ensures From([x], lo, len, n) == Combos(x, len, n)
  {
    assert [x][1..] == [];
  }

  lemma FromMore(p: seq<nat>, lo: nat, len: nat, n: nat)
    requires 1 <= |p| <= n && p[0] + n <= len
    ensures From(p, lo, len, n) == Each(p[0], From(p[1..], p[0] + 1, len, n - 1)) + Combos(p[0] + 1, len, n)
  {
  }

  /** Filling in the next element of a prefix with the smallest index. */
  lemma {:induction false} FromFill(p: seq<nat>, lo: nat, len: nat, n: nat)
    requires 0 < |p| < n && InRange(p, len, n)
    ensures From(p + [p[|p| - 1] + 1], lo, len, n) == From(p, lo, len, n)
  {
    hide From, Combos, Each;
    var x, q := p[0], p + [p[|p| - 1] + 1];
    FromMore(p, lo, len, n);
    FromMore(q, lo, len, n);
    if |p| == 1 {
      assert q[1..] == [x + 1] && p[1..] == [];
      FromOne(x + 1, x + 1, len, n - 1);
      FromNone(x + 1, len, n - 1);
    } else {
      assert q[1..] == p[1..] + [p[1..][|p| - 2] + 1];
      FromFill(p[1..], x + 1, len, n - 1);
    }
  }

  lemma FromNone(lo: nat, len: nat, n: nat)
    ensures From([], lo, len, n) == Combos(lo, len, n)
  {
  }

  /** A full tuple is the next combination, and incrementing its last element gives the rest. */
  lemma {:induction false} FromYield(p: seq<nat>, lo: nat, len: nat, n: nat)
    requires 0 < |p| == n && InRange(p, len, n)
    ensures From(p, lo, len, n) == [p] + From(Inc(p), lo, len, n)
  {
    hide From, Combos, Each;
    var x := p[0];
    FromMore(p, lo, len, n);
    if n == 1 {
      assert p[1..] == [] && p == [x] && Inc(p) == [x + 1];
      FromNone(x + 1, len, 0);
      FromOne(x + 1, lo, len, 1);
      EachNone(x, x + 1, len);
    } else {
      assert Inc(p)[1..] == Inc(p[1..]);
      FromYield(p[1..], x + 1, len, n - 1);
      FromMore(Inc(p), lo, len, n);
      EachFirst(p, From(Inc(p[1..]), x + 1, len, n - 1));
    }
  }

  lemma EachNone(x: nat, lo: nat, len: nat)
    ensures Each(x, Combos(lo, len, 0)) == [[x]]
  {
    assert Each(x, [[]])[0] == [x];
  }

  lemma EachFirst(p: seq<nat>, rest: seq<seq<nat>>)
    requires p != []
    ensures Each(p[0], [p[1..]] + rest) == [p] + Each(p[0], rest)
  {
    assert [p[0]] + p[1..] == p;
    var l, r := Each(p[0], [p[1..]] + rest), [p] + Each(p[0], rest);
    forall i | 0 <= i < |l| ensures l[i] == r[i] {
    }
  }

  /** A position that ran past its largest value has nothing more: the one before it moves on. */
  lemma {:induction false} FromCarry(p: seq<nat>, lo: nat, len: nat, n: nat)
    requires 2 <= |p| <= n && InRange(p[..|p| - 1], len, n) && p[|p| - 1] + n > len + |p| - 1
    ensures From(p, lo, len, n) == From(Inc(p[..|p| - 1]), lo, len, n)
  {
    hide From, Combos, Each;
    var y, front := p[0], p[..|p| - 1];
    assert front[0] == y;
    var q := Inc(front);
    FromMore(p, lo, len, n);
    if |p| == 2 {
      assert q == [y + 1] && p[1..] == [p[1]];
      Exhausted(p[1..], y + 1, len, n - 1);
      FromOne(y + 1, lo, len, n);
    } else {
      var tail := p[1..];
      assert tail[..|tail| - 1] == front[1..];
      assert forall i :: 0 <= i < |front[1..]| ==> front[1..][i] == front[i + 1];
      assert q[1..] == Inc(front[1..]) && q[0] == y;
      FromCarry(tail, y + 1, len, n - 1);
      FromMore(q, lo, len, n);
    }
  }

  lemma Exhausted(p: seq<nat>, lo: nat, len: nat, n: nat)
    requires |p| == 1 <= n && p[0] + n > len
    ensures From(p, lo, len, n) == []
  {
  }

  // ---------------------------------------------------------------- the enumerator

  predicate Below(t: seq<nat>, len: nat) { forall i :: 0 <= i < |t| ==> t[i] < len }

  function Pick<T>(ary: seq<T>, t: seq<nat>): (r: seq<T>)
    requires Below(t, |ary|)
    ensures |r| == |t|
  {
    seq(|t|, i requires 0 <= i < |t| => ary[t[i]])
  }

  /** The arrays yielded are the elements at each tuple of indices. */
  ghost predicate Yields<T>(ary: seq<T>, ts: seq<seq<nat>>, yielded: seq<seq<T>>) {
    && |yielded| == |ts|
    && forall i :: 0 <= i < |ts| ==> Below(ts[i], |ary|) && yielded[i] == Pick(ary, ts[i])
  }

  lemma YieldsMore<T>(ary: seq<T>, ts: seq<seq<nat>>, yielded: seq<seq<T>>, t: seq<nat>, y: seq<T>)
    requires Yields(ary, ts, yielded) && Below(t, |ary|) && y == Pick(ary, t)
    ensures Yields(ary, ts + [t], yielded + [y])
  {
  }

  /** The stack holds p from position 1 on. */
  ghost predicate Holds(stack: array<int>, p: seq<nat>)
    reads stack
  {
    |p| < stack.Length && forall j :: 0 <= j < |p| ==> stack[j + 1] == p[j]
  }

  /** The inner for loop: completes a prefix with the smallest indices, and the chosen elements with it. */
  method Complete<T>(ary: seq<T>, n: nat, stack: array<int>, chosen: array<T>, lev0: nat, ghost p0: seq<nat>)
      returns (ghost p: seq<nat>)
    requires stack.Length == n + 1 && chosen.Length == n && lev0 < n <= |ary| && |p0| == lev0 + 1
    requires Holds(stack, p0) && InRange(p0, |ary|, n)
    requires forall j :: 0 <= j < lev0 ==> chosen[j] == ary[p0[j]]
    modifies stack, chosen
    ensures |p| == n && Holds(stack, p) && InRange(p, |ary|, n) && Below(p, |ary|)
    ensures From(p, 0, |ary|, n) == From(p0, 0, |ary|, n)
    ensures chosen[..] == Pick(ary, p)
  {
    hide From, Combos;
    p := p0;
    assert stack[lev0 + 1] == p[lev0];
    chosen[lev0] := ary[stack[lev0 + 1]];
    var lev := lev0 + 1;
    while lev < n
      invariant lev0 < lev <= n == |stack[..]| - 1 && |p| == lev
      invariant Holds(stack, p) && InRange(p, |ary|, n)
      invariant From(p, 0, |ary|, n) == From(p0, 0, |ary|, n)
      invariant forall j :: 0 <= j < lev ==> chosen[j] == ary[p[j]]
    {
      FromFill(p, 0, |ary|, n);
      p := p + [p[lev - 1] + 1];
      stack[lev + 1] := stack[lev] + 1;
      chosen[lev] := ary[stack[lev + 1]];
      lev := lev + 1;
    }
  }

  /** The do-while loop: moves on to the next prefix. */
  method Advance(len: nat, n: nat, stack: array<int>, ghost p0: seq<nat>) returns (lev: nat, ghost p: seq<nat>)
    requires stack.Length == n + 1 && 2 <= n <= len && |p0| == n && Holds(stack, p0) && InRange(p0, len, n)
    modifies stack
    ensures lev < n && |p| == lev + 1 && Holds(stack, p) && p[..lev] == p0[..lev]
    ensures From(p0, 0, len, n) == [p0] + From(p, 0, len, n)
    ensures From(p, 0, len, n) != [] ==> InRange(p, len, n)
  {
    hide From, Combos;
    FromYield(p0, 0, len, n);
    p := Inc(p0);
    stack[n] := stack[n] + 1;
    lev := n - 1;
    while lev > 0 && stack[lev + 1] + n == len + lev + 1
      invariant lev < n && |p| == lev + 1 && Holds(stack, p) && p[..lev] == p0[..lev]
      invariant From(p, 0, len, n) == From(Inc(p0), 0, len, n)
      invariant p[lev] == p0[lev] + 1
    {
      assert forall j :: 0 <= j < lev ==> p[j] == p[..lev][j] == p0[..lev][j] == p0[j];
      assert forall j :: 0 <= j < lev ==> p[..lev][j] == p0[j];
      FromCarry(p, 0, len, n);
      ghost var q := Inc(p[..lev]);
      assert q[..lev - 1] == p0[..lev - 1];
      p := q;
      stack[lev] := stack[lev] + 1;
      lev := lev - 1;
    }
    assert forall j :: 0 <= j < lev ==> p[j] == p[..lev][j] == p0[..lev][j] == p0[j];
    if lev == 0 && p[0] + n > len {
      Exhausted(p, 0, len, n);
    }
  }

  /** rb_ary_combination: the list of combinations in its order, up to the number that combi_len gives, which is all of
      it if and only if the last product of combi_len fits a long. None is the RangeError. */
  method Combination<T>(ary: seq<T>, n: int) returns (yielded: Option<seq<seq<T>>>)
    ensures n < 0 ==> yielded == Some([])
    ensures n >= 0 && yielded.Some? ==> YieldsFirst(ary, Combos(0, |ary|, n), yielded.value)
    ensures n >= 0 ==>
              (yielded.Some? && |yielded.value| == |Combos(0, |ary|, n)| <==>
               n < 2 || n > |ary| || Shorter(|ary|, n) * Binom(|ary|, n) < LONG_LIMIT)
  {
    var len := |ary|;
    if n < 0 || len < n {
      return Some([]);
    } else if n == 0 {
      return Some([[]]);
    } else if n == 1 {
      var singles := Singles(ary);
      assert Combos(0, len, 1)[..|singles|] == Combos(0, len, 1);
      return Some(singles);
    } else {
      yielded := Tuples(ary, n);
    }
  }

  /** The first tuples of the list, as many as were yielded. */
  ghost predicate YieldsFirst<T>(ary: seq<T>, ts: seq<seq<nat>>, yielded: seq<seq<T>>) {
    |yielded| <= |ts| && Yields(ary, ts[..|yielded|], yielded)
  }

  lemma CombosOne(i: nat, len: nat)
    requires i < len
    ensures Combos(i, len, 1) == [[i]] + Combos(i + 1, len, 1)
  {
    EachNone(i, i + 1, len);
  }

  lemma CombosNone(len: nat)
    ensures Combos(len, len, 1) == []
  {
  }

  /** The branch for one element. */
  method Singles<T>(ary: seq<T>) returns (yielded: seq<seq<T>>)
    ensures Yields(ary, Combos(0, |ary|, 1), yielded)
  {
    hide Combos;
    var len := |ary|;
    CombosNone(len);
    ghost var done: seq<seq<nat>> := [];
    yielded := [];
    var i := 0;
    while i < len
      invariant 0 <= i <= len && Yields(ary, done, yielded)
      invariant done + Combos(i, len, 1) == Combos(0, len, 1)
    {
      CombosOne(i, len);
      assert done + ([[i]] + Combos(i + 1, len, 1)) == done + [[i]] + Combos(i + 1, len, 1);
      YieldsMore(ary, done, yielded, [i], [ary[i]]);
      done := done + [[i]];
      yielded := yielded + [[ary[i]]];
      i := i + 1;
    }
  }

  /** The general branch: the number of steps is known in advance. */
  method Tuples<T>(ary: seq<T>, n: nat) returns (all: Option<seq<seq<T>>>)
    requires 2 <= n <= |ary|
    ensures all.Some? ==> YieldsFirst(ary, Combos(0, |ary|, n), all.value)
    ensures all.Some? && |all.value| == |Combos(0, |ary|, n)| <==> Shorter(|ary|, n) * Binom(|ary|, n) < LONG_LIMIT
  {
    hide From, Combos, Each, Binom, Steps, Shorter;
    var len := |ary|;
    var stack, chosen := new int[n + 1](_ => 0), new T[n](_ => ary[0]);
    var number := CombiLen(len, n);
    CombosCount(0, len, n);
    if number == None {
      return None;
    }
    var nlen := number.value;
    stack[0] := -1;
    var lev: nat := 0;
    ghost var p: seq<nat>, done: seq<seq<nat>> := [0], [];
    FromOne(0, 0, len, n);
    var yielded: seq<seq<T>> := [];
    var i := 0;
    while i < nlen
      invariant 0 <= i <= nlen && lev < n && |p| == lev + 1 && Holds(stack, p)
      invariant From(p, 0, len, n) != [] ==> InRange(p, len, n)
      invariant forall j :: 0 <= j < lev ==> p[j] < len && chosen[j] == ary[p[j]]
      invariant |done| == i && Yields(ary, done, yielded)
      invariant done + From(p, 0, len, n) == Combos(0, len, n)
    {
      ghost var t := Complete(ary, n, stack, chosen, lev, p);
      YieldsMore(ary, done, yielded, t, chosen[..]);
      yielded := yielded + [chosen[..]];
      lev, p := Advance(len, n, stack, t);
      assert done + ([t] + From(p, 0, len, n)) == done + [t] + From(p, 0, len, n);
      assert forall j :: 0 <= j < lev ==> p[j] == p[..lev][j] == t[..lev][j] == t[j];
      assert forall j :: 0 <= j < lev ==> chosen[j] == chosen[..][j];
      done := done + [t];
      i := i + 1;
    }
    assert done == Combos(0, len, n)[..nlen];
    all := Some(yielded);
  }
}
