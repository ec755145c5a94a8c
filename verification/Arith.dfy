/** Facts about products, sums and quotients that several components share. */
module Arith {

  lemma MulStep(a: int, b: int, p: nat)
    requires a < b
    ensures a * p + p <= b * p
  {
    var d := b - a - 1;
    assert d * p >= 0;
    assert b * p == a * p + p + d * p;
  }

  lemma DivideBy(w: int, q: int, r: nat, d: int)
    requires w == q * d + r && r < d
    ensures w / d == q && w % d == r
  {
    var e := w / d - q;
    assert e * d == r - w % d;
    assert e >= 1 ==> e * d >= d;
    assert e <= -1 ==> e * d <= -d;
  }

  lemma MulNext(a: int, p: int)
    ensures (a + 1) * p == a * p + p
  {
  }

  ghost function Pow2(n: nat): nat { if n == 0 then 1 else 2 * Pow2(n - 1) }

  lemma {:induction false} Pow2Grows(a: nat, b: nat)
    requires a <= b
    ensures Pow2(a) <= Pow2(b)
    ensures Pow2(8) == 256
  {
    if a < b { Pow2Grows(a, b - 1); }
    assert Pow2(8) == 2 * Pow2(7) == 4 * Pow2(6) == 8 * Pow2(5) == 16 * Pow2(4) == 32 * Pow2(3);
  }

  /** Bitwise or of natural numbers. */
  ghost function Or(a: nat, b: nat): nat
    decreases a + b
  {
    if a == 0 && b == 0 then 0
    else 2 * Or(a / 2, b / 2) + (if a % 2 == 1 || b % 2 == 1 then 1 else 0)
  }

  lemma {:induction false} OrZero(a: nat)
    ensures Or(a, 0) == a
  {
    if a > 0 { OrZero(a / 2); }
  }

  /** Numbers that share no bit position are ored by adding them. */
  lemma {:induction false} OrAdds(q: nat, b: nat, k: nat)
    requires b < Pow2(k)
    ensures Or(q * Pow2(k), b) == q * Pow2(k) + b
    decreases k
  {
    if k == 0 {
      OrZero(q);
    } else {
      var a := q * Pow2(k - 1);
      assert q * Pow2(k) == 2 * a;
      OrAdds(q, b / 2, k - 1);
    }
  }
}
