/** Bit strings, most significant bit first, their numeric values, and endless bit streams. */
module Bits {
  /** A byte as an integer. */
  type Byte = b: int | 0 <= b < 256

  /** An endless stream of bits, addressed by position. */
  type Stream = nat -> bool

  /** The number of values of a 32-bit word. */
  const WORD := 0x1_0000_0000

  function Pow2(n: nat): (p: nat)
    ensures p >= 1
  {
    if n == 0 then 1 else 2 * Pow2(n - 1)
  }

  /** The number whose binary digits are `bits`. */
  function Value(bits: seq<bool>): nat {
    if bits == [] then 0
    else 2 * Value(bits[..|bits| - 1]) + (if bits[|bits| - 1] then 1 else 0)
  }

  /** The low `n` binary digits of `v`. */
  function ToBits(v: nat, n: nat): (bits: seq<bool>)
    ensures |bits| == n
  {
    if n == 0 then [] else ToBits(v / 2, n - 1) + [v % 2 == 1]
  }

  /** The `n` bits of `s` from position `off` on. */
  function Window(s: Stream, off: nat, n: nat): seq<bool> {
    seq(n, i requires 0 <= i < n => s(off + i))
  }

  /** `bits` is what `s` holds from position `off` on. */
  ghost predicate Carries(s: Stream, off: nat, bits: seq<bool>) {
    forall i :: 0 <= i < |bits| ==> s(off + i) == bits[i]
  }

  // ----- powers of two

  lemma {:induction false} Pow2Add(m: nat, n: nat)
    ensures Pow2(m + n) == Pow2(m) * Pow2(n)
  {
    if m == 0 {
    } else {
      Pow2Add(m - 1, n);
      assert Pow2(m + n) == 2 * Pow2(m - 1 + n);
    }
  }

  lemma Pow2Values()
    ensures Pow2(0) == 1
    ensures Pow2(8) == 256
    ensures Pow2(16) == 0x1_0000
    ensures Pow2(32) == 0x1_0000_0000
  {
    assert Pow2(8) == 256;
    assert Pow2(16) == 0x1_0000 by {
      hide Pow2;
      Pow2Add(8, 8);
    }
    assert Pow2(32) == 0x1_0000_0000 by {
      hide Pow2;
      Pow2Add(16, 16);
    }
  }

  // ----- values of bit strings

  lemma {:induction false} ValueBound(bits: seq<bool>)
    ensures Value(bits) < Pow2(|bits|)
  {
    if bits != [] {
      ValueBound(bits[..|bits| - 1]);
    }
  }

  lemma {:induction false} ValueConcat(a: seq<bool>, b: seq<bool>)
    ensures Value(a + b) == Value(a) * Pow2(|b|) + Value(b)
  {
    hide Value, Pow2;
    if b == [] {
      assert a + b == a;
      ValueStep([], false);
    } else {
      var b', last := b[..|b| - 1], b[|b| - 1];
      ValueConcat(a, b');
      assert b == b' + [last] && a + b == (a + b') + [last];
      ValueStep(b', last);
      ValueStep(a + b', last);
      TwiceProduct(Value(a), Pow2(|b'|));
    }
  }

  lemma ValueStep(bits: seq<bool>, last: bool)
    ensures Value([]) == 0 && Pow2(0) == 1
    ensures Value(bits + [last]) == 2 * Value(bits) + (if last then 1 else 0)
    ensures Pow2(|bits + [last]|) == 2 * Pow2(|bits|)
  {
    assert (bits + [last])[..|bits|] == bits;
  }

  lemma TwiceProduct(x: nat, p: nat)
    ensures x * (2 * p) == 2 * (x * p)
  {
  }

  lemma {:induction false} ToBitsOfValue(bits: seq<bool>)
    ensures ToBits(Value(bits), |bits|) == bits
  {
    if bits != [] {
      ToBitsOfValue(bits[..|bits| - 1]);
    }
  }

  lemma {:induction false} ValueOfToBits(v: nat, n: nat)
    requires v < Pow2(n)
    ensures Value(ToBits(v, n)) == v
  {
    if n > 0 {
      ValueOfToBits(v / 2, n - 1);
      assert ToBits(v, n)[..n - 1] == ToBits(v / 2, n - 1);
    }
  }

  // ----- quotients and remainders, kept apart from the arithmetic that uses them

  function Div(x: nat, d: nat): nat
    requires d > 0
  {
    QuotientIsNat(x, d);
    x / d
  }

  function Mod(x: nat, d: nat): (r: nat)
    requires d > 0
    ensures r < d
  {
    x % d
  }

  /** A nonzero multiple of `d` is at least `d` away from zero. */
  lemma MultipleFarFromZero(k: int, d: int)
    requires d > 0
    ensures k >= 1 ==> k * d >= d
    ensures k <= -1 ==> k * d <= -d
  {
    if k >= 1 {
      assert (k - 1) * d >= 0;
    } else if k <= -1 {
      assert (-1 - k) * d >= 0;
    }
  }

  lemma QuotientIsNat(x: nat, d: nat)
    requires d > 0
    ensures x / d >= 0
  {
    var q := x / d;
    assert x == q * d + x % d;
    MultipleFarFromZero(q, d);
  }

  lemma Euclid(x: nat, d: nat)
    requires d > 0
    ensures x == Div(x, d) * d + Mod(x, d)
  {
  }

  lemma DivModUnique(q: nat, d: nat, r: nat)
    requires r < d
    ensures q * d + r >= 0
    ensures Div(q * d + r, d) == q
    ensures Mod(q * d + r, d) == r
  {
    var x := q * d + r;
    Euclid(x, d);
    var q', r' := Div(x, d), Mod(x, d);
    hide *;
    assert (q - q') * d == r' - r by { assert q' * d + r' == q * d + r; }
    MultipleFarFromZero(q - q', d);
  }

  lemma SmallRemainder(x: nat, d: nat)
    ensures x < d ==> Mod(x, d) == x
  {
    if x < d {
      DivModUnique(0, d, x);
    }
  }

  /** Division by a power of two keeps the leading bits; the remainder is the trailing ones. */
  lemma ValueSplit(a: seq<bool>, b: seq<bool>)
    ensures Div(Value(a + b), Pow2(|b|)) == Value(a)
    ensures Mod(Value(a + b), Pow2(|b|)) == Value(b)
  {
    ValueConcat(a, b);
    ValueBound(b);
    hide *;
    DivModUnique(Value(a), Pow2(|b|), Value(b));
  }

  // ----- streams

  lemma WindowSplit(s: Stream, off: nat, m: nat, n: nat)
    ensures Window(s, off, m + n) == Window(s, off, m) + Window(s, off + m, n)
  {
  }

  lemma EmptyWindow(s: Stream, off: int)
    ensures off >= 0 ==> Value(Window(s, off, 0)) == 0
  {
  }

  lemma CarriesSplit(s: Stream, off: nat, a: seq<bool>, b: seq<bool>)
    requires Carries(s, off, a + b)
    ensures Carries(s, off, a)
    ensures Carries(s, off + |a|, b)
  {
    forall i | 0 <= i < |a|
      ensures s(off + i) == a[i]
    {
      assert (a + b)[i] == a[i];
    }
    forall i | 0 <= i < |b|
      ensures s(off + |a| + i) == b[i]
    {
      assert (a + b)[|a| + i] == b[i];
    }
  }

  lemma CarriesWindow(s: Stream, off: nat, bits: seq<bool>)
    requires Carries(s, off, bits)
    ensures Window(s, off, |bits|) == bits
  {
  }
}
