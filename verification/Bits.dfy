/**
 Bitwise operators of C's unsigned integers, over natural numbers.
 */
module Bits {

  function BitOr(a: nat, b: nat): (r: nat)
    ensures a == 0 ==> r == b
    ensures b == 0 ==> r == a
    ensures r >= a && r >= b
  {
    if a == 0 && b == 0 then 0
    else 2 * BitOr(a / 2, b / 2) + (if a % 2 == 1 || b % 2 == 1 then 1 else 0)
  }

  function BitAnd(a: nat, b: nat): (r: nat)
    ensures r <= a && r <= b
  {
    if a == 0 || b == 0 then 0
    else 2 * BitAnd(a / 2, b / 2) + (if a % 2 == 1 && b % 2 == 1 then 1 else 0)
  }

  /** a >> k */
  function Shr(a: nat, k: nat): nat
    decreases k
  {
    if k == 0 then a else Shr(a / 2, k - 1)
  }

  /** 1 << k */
  function Pow2(k: nat): (r: nat)
    ensures r > 0
  {
    if k == 0 then 1 else 2 * Pow2(k - 1)
  }

  predicate Bit(a: nat, k: nat) { Shr(a, k) % 2 == 1 }

  lemma {:induction false} ShrOr(a: nat, b: nat, k: nat)
    ensures Shr(BitOr(a, b), k) == BitOr(Shr(a, k), Shr(b, k))
    decreases k
  {
    if k > 0 {
      assert BitOr(a, b) / 2 == BitOr(a / 2, b / 2);
      ShrOr(a / 2, b / 2, k - 1);
    }
  }

  lemma {:induction false} ShrAnd(a: nat, b: nat, k: nat)
    ensures Shr(BitAnd(a, b), k) == BitAnd(Shr(a, k), Shr(b, k))
    decreases k
  {
    if k > 0 {
      assert BitAnd(a, b) / 2 == BitAnd(a / 2, b / 2);
      ShrAnd(a / 2, b / 2, k - 1);
    }
  }

  lemma BitOfOr(a: nat, b: nat, k: nat)
    ensures Bit(BitOr(a, b), k) <==> Bit(a, k) || Bit(b, k)
  {
    hide BitOr, Shr;
    ShrOr(a, b, k);
    OddOr(Shr(a, k), Shr(b, k));
  }

  lemma OddOr(a: nat, b: nat)
    ensures BitOr(a, b) % 2 == 1 <==> a % 2 == 1 || b % 2 == 1
  {
    var low := if a % 2 == 1 || b % 2 == 1 then 1 else 0;
    var high := BitOr(a / 2, b / 2);
    assert BitOr(a, b) == 2 * high + low;
    LastBit(high, low);
  }

  lemma LastBit(high: nat, low: nat)
    requires low < 2
    ensures (2 * high + low) % 2 == low
  {
  }

  lemma BitOfAnd(a: nat, b: nat, k: nat)
    ensures Bit(BitAnd(a, b), k) <==> Bit(a, k) && Bit(b, k)
  {
    ShrAnd(a, b, k);
  }

  lemma {:induction false} ShrZero(k: nat)
    ensures Shr(0, k) == 0
  {
    if k > 0 { ShrZero(k - 1); }
  }

  lemma {:induction false} BitOfPow2(i: nat, k: nat)
    ensures Bit(Pow2(i), k) <==> i == k
    decreases i
  {
    if i == 0 {
      if k > 0 { ShrZero(k - 1); }
    } else if k > 0 {
      assert Pow2(i) / 2 == Pow2(i - 1);
      BitOfPow2(i - 1, k - 1);
      assert Shr(Pow2(i), k) == Shr(Pow2(i - 1), k - 1);
    }
  }

  /** ~a in n-bit arithmetic. */
  lemma {:induction false} BitOfNot(a: nat, n: nat, k: nat)
    requires a < Pow2(n) && k < n
    ensures Bit(Pow2(n) - 1 - a, k) <==> !Bit(a, k)
    decreases k
  {
    var c := Pow2(n) - 1 - a;
    assert Pow2(n) == 2 * Pow2(n - 1);
    if k > 0 {
      assert c / 2 == Pow2(n - 1) - 1 - a / 2;
      BitOfNot(a / 2, n - 1, k - 1);
      assert Shr(c, k) == Shr(c / 2, k - 1);
    }
  }

  lemma {:induction false} OrBound(a: nat, b: nat, n: nat)
    requires a < Pow2(n) && b < Pow2(n)
    ensures BitOr(a, b) < Pow2(n)
    decreases n
  {
    if n > 0 { OrBound(a / 2, b / 2, n - 1); }
  }

  lemma DivDiv(x: nat, p: nat)
    requires p > 0
    ensures x / 2 / p == x / (2 * p)
  {
    var q, r := x / (2 * p), x % (2 * p);
    assert x == 2 * (p * q) + r by { assert x == (2 * p) * q + r; assert (2 * p) * q == 2 * (p * q); }
    assert x / 2 == p * q + r / 2;
    Quotient(x / 2, p, q, r / 2);
  }

  lemma Quotient(x: nat, p: nat, q: nat, r: nat)
    requires p > 0 && x == p * q + r && r < p
    ensures x / p == q
  {
    var d := x / p;
    assert x == p * d + x % p;
    if d > q {
      MulGap(p, q, d);
    } else if d < q {
      MulGap(p, d, q);
    }
  }

  lemma {:induction false} MulGap(p: nat, a: nat, b: nat)
    requires a < b
    ensures p * a + p <= p * b
    decreases b
  {
    if a + 1 < b {
      MulGap(p, a, b - 1);
    }
  }

  lemma {:induction false} ShrIsDiv(a: nat, k: nat)
    ensures Shr(a, k) == a / Pow2(k)
    decreases k
  {
    if k > 0 {
      ShrIsDiv(a / 2, k - 1);
      DivDiv(a, Pow2(k - 1));
    }
  }

  /** Multiples of 2^j have their low j bits clear. */
  lemma {:induction false} LowBitClear(g: nat, j: nat, k: nat)
    requires k < j
    ensures !Bit(g * Pow2(j), k)
    decreases k
  {
    assert g * Pow2(j) == 2 * (g * Pow2(j - 1)) by { assert Pow2(j) == 2 * Pow2(j - 1); }
    if k > 0 {
      LowBitClear(g, j - 1, k - 1);
      assert Shr(g * Pow2(j), k) == Shr(g * Pow2(j - 1), k - 1);
    }
  }

  lemma OrUnfold(a: nat, b: nat)
    ensures BitOr(a, b) == 2 * BitOr(a / 2, b / 2) + (if a % 2 == 1 || b % 2 == 1 then 1 else 0)
  {
  }

  lemma OrStep(u1: nat, u2: nat, l1: nat, l2: nat, r: nat)
    requires BitOr(u1 + l1 / 2, u2 + l2 / 2) == r + BitOr(l1 / 2, l2 / 2)
    ensures BitOr(2 * u1 + l1, 2 * u2 + l2) == 2 * r + BitOr(l1, l2)
  {
    hide BitOr;
    OrUnfold(2 * u1 + l1, 2 * u2 + l2);
    OrUnfold(l1, l2);
    assert (2 * u1 + l1) / 2 == u1 + l1 / 2 && (2 * u2 + l2) / 2 == u2 + l2 / 2;
  }

  lemma Doubled(h: nat, p: nat)
    ensures h * (2 * p) == 2 * (h * p)
  {
  }

  /** OR works on the bits above position k and below it separately. */
  lemma {:induction false} OrParts(h1: nat, h2: nat, l1: nat, l2: nat, k: nat)
    requires l1 < Pow2(k) && l2 < Pow2(k)
    ensures BitOr(h1 * Pow2(k) + l1, h2 * Pow2(k) + l2) == BitOr(h1, h2) * Pow2(k) + BitOr(l1, l2)
    decreases k
  {
    hide BitOr;
    if k == 0 {
      assert Pow2(k) == 1 && l1 == 0 && l2 == 0 && BitOr(l1, l2) == 0;
    } else {
      var p, q := Pow2(k - 1), Pow2(k);
      OrParts(h1, h2, l1 / 2, l2 / 2, k - 1);
      var u1, u2, r := h1 * p, h2 * p, BitOr(h1, h2) * p;
      OrStep(u1, u2, l1, l2, r);
      assert h1 * q == 2 * u1 by { Doubled(h1, p); }
      assert h2 * q == 2 * u2 by { Doubled(h2, p); }
      assert BitOr(h1, h2) * q == 2 * r by { Doubled(BitOr(h1, h2), p); }
    }
  }

  lemma {:induction false} OrSelf(a: nat)
    ensures BitOr(a, a) == a
  {
    if a > 0 { OrSelf(a / 2); }
  }
}
