/** The bitwise operators on numbers of any size. */
module Bitwise {
  import opened Bits

  // ----- single bits

  /** Bit `j` of a number, the least significant one being bit 0. */
  function Bit(a: nat, j: nat): bool {
    if j == 0 then a % 2 == 1 else Bit(a / 2, j - 1)
  }

  /** Bit `j` is the parity of what dividing by 2^j leaves. */
  lemma {:induction false} BitIsParity(a: nat, j: nat)
    ensures Bit(a, j) <==> Div(a, Pow2(j)) % 2 == 1
  {
    hide Div, Mod;
    if j == 0 {
      DivModUnique(a, 1, 0);
    } else {
      BitIsParity(a / 2, j - 1);
      Euclid(a / 2, Pow2(j - 1));
      var q, r, p := Div(a / 2, Pow2(j - 1)), Mod(a / 2, Pow2(j - 1)), Pow2(j - 1);
      TwiceProduct(q, p);
      assert a == q * (2 * p) + (2 * r + a % 2);
      DivModUnique(q, 2 * p, 2 * r + a % 2);
    }
  }

  // ----- or and and

  function BitOr(a: nat, b: nat): nat
    decreases a + b
  {
    if a == 0 && b == 0 then 0
    else 2 * BitOr(a / 2, b / 2) + (if a % 2 == 1 || b % 2 == 1 then 1 else 0)
  }

  function BitAnd(a: nat, b: nat): nat
    decreases a + b
  {
    if a == 0 && b == 0 then 0
    else 2 * BitAnd(a / 2, b / 2) + (if a % 2 == 1 && b % 2 == 1 then 1 else 0)
  }

  lemma {:induction false} OrZero(a: nat)
    ensures BitOr(a, 0) == a
  {
    if a > 0 {
      OrZero(a / 2);
    }
  }

  /** Bits that do not overlap are combined by addition. */
  lemma {:induction false} OrDisjoint(a: nat, b: nat, n: nat)
    requires b < Pow2(n)
    ensures BitOr(a * Pow2(n), b) == a * Pow2(n) + b
  {
    hide BitOr;
    if n == 0 {
      OrZero(a);
    } else {
      OrDisjoint(a, b / 2, n - 1);
      var p := Pow2(n - 1);
      assert a * (2 * p) == 2 * (a * p);
      OrDouble(a * p, b);
    }
  }

  lemma OrDouble(a: nat, b: nat)
    ensures BitOr(2 * a, b) == 2 * BitOr(a, b / 2) + b % 2
  {
  }

  lemma AndNibble(a: nat)
    ensures BitAnd(a, 0xf) == a % 16
  {
    hide BitAnd;
    AndStep(a, 7);
    AndStep(a / 2, 3);
    AndStep(a / 2 / 2, 1);
    AndStep(a / 2 / 2 / 2, 0);
    AndZero(a / 2 / 2 / 2 / 2);
  }

  lemma AndStep(a: nat, m: nat)
    ensures BitAnd(a, 2 * m + 1) == 2 * BitAnd(a / 2, m) + a % 2
  {
  }

  lemma {:induction false} AndZero(a: nat)
    ensures BitAnd(a, 0) == 0
  {
    if a > 0 {
      AndZero(a / 2);
    }
  }

  // ----- exclusive or

  function BitXor(a: nat, b: nat): nat
    decreases a + b
  {
    if a == 0 && b == 0 then 0
    else 2 * BitXor(a / 2, b / 2) + (if a % 2 != b % 2 then 1 else 0)
  }

  lemma XorStep(a: nat, b: nat)
    ensures BitXor(a, b) / 2 == BitXor(a / 2, b / 2)
    ensures BitXor(a, b) % 2 == 1 <==> a % 2 != b % 2
  {
  }

  /** A bit of the result is set where exactly one of the two is. */
  lemma {:induction false} XorBits(a: nat, b: nat, j: nat)
    ensures Bit(BitXor(a, b), j) <==> Bit(a, j) != Bit(b, j)
    decreases j
  {
    hide BitXor;
    XorStep(a, b);
    if j > 0 {
      XorBits(a / 2, b / 2, j - 1);
    }
  }

  lemma {:induction false} XorTwice(a: nat, k: nat)
    ensures BitXor(BitXor(a, k), k) == a
    decreases a + k
  {
    hide BitXor;
    XorStep(a, k);
    XorStep(BitXor(a, k), k);
    if a + k > 0 {
      XorTwice(a / 2, k / 2);
    } else {
      XorZeros();
    }
  }

  lemma XorZeros()
    ensures BitXor(0, 0) == 0
  {
  }

  lemma {:induction false} XorBound(a: nat, b: nat, n: nat)
    requires a < Pow2(n) && b < Pow2(n)
    ensures BitXor(a, b) < Pow2(n)
    decreases n
  {
    if n > 0 {
      XorBound(a / 2, b / 2, n - 1);
      XorStep(a, b);
    }
  }
}
