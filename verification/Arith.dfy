/** Facts about products and quotients that the solver needs spelled out. */
module Arith {

  lemma MulMono(a: int, b: int, p: int)
    requires a <= b && p >= 0
    ensures a * p <= b * p
  {
  }

  /** a*p < (b+1)*p gives a <= b */
  lemma MulCancel(a: int, b: int, p: int)
    requires p >= 1 && a * p < b * p + p
    ensures a <= b
  {
    if a >= b + 1 {
      MulMono(b + 1, a, p);
      assert false;
    }
  }

  lemma DivAtLeast(a: int, b: int, q: int)
    requires b > 0 && q * b <= a
    ensures q <= a / b
  {
    var d := a / b;
    assert a == d * b + a % b;
    MulCancel(q, d, b);
  }

  /** q*Y + r with 0 <= r < Y is the division of W by Y. */
  lemma DivModUnique(W: int, Y: int, q: int, r: int)
    requires Y > 0 && W == q * Y + r && 0 <= r < Y
    ensures W / Y == q && W % Y == r
  {
    var d, m := W / Y, W % Y;
    assert W == d * Y + m;
    MulCancel(q, d, Y);
    MulCancel(d, q, Y);
  }
}
