/**
 * Fixed-width bitwise arithmetic on naturals.
 *
 * Python applies `&`, `|` and `~` to unbounded integers; an IPv4 address is an
 * integer below 2^32, so every operation here works on the low `w` bits of its
 * operands. The operations are defined one bit at a time, by recursion on the
 * width, and the lemmas connect them with the arithmetic the address
 * calculations need: AND with low ones is a remainder, AND with high ones rounds
 * down to a multiple, OR with low ones fills a block up to its last value, and
 * the complement of x is (2^w - 1) - x.
 */
module Bits {

  /** 2^n */
  function Pow2(n: nat): (r: nat)
    ensures r >= 1
  {
    if n == 0 then 1 else 2 * Pow2(n - 1)
  }

  lemma {:induction false} Pow2Monotone(k: nat, w: nat)
    requires k <= w
    ensures Pow2(k) <= Pow2(w)
    decreases w
  {
    if k < w {
      Pow2Monotone(k, w - 1);
    }
  }

  lemma {:induction false} Pow2Add(a: nat, b: nat)
    ensures Pow2(a + b) == Pow2(a) * Pow2(b)
  {
    if a > 0 {
      Pow2Add(a - 1, b);
    }
  }

  /** The low k bits set: 2^k - 1. */
  function Ones(k: nat): nat
  {
    Pow2(k) - 1
  }

  /** Bits k .. w-1 set and no others: 2^w - 2^k. */
  function TopOnes(k: nat, w: nat): (r: nat)
    requires k <= w
    ensures r + Pow2(k) == Pow2(w)
  {
    Pow2Monotone(k, w);
    Pow2(w) - Pow2(k)
  }

  /** Bit i of x, counted from the least significant end. */
  predicate Bit(x: nat, i: nat)
  {
    if i == 0 then x % 2 == 1 else Bit(x / 2, i - 1)
  }

  /** x & y on w-bit operands. */
  function And(x: nat, y: nat, w: nat): (r: nat)
    ensures r < Pow2(w)
  {
    if w == 0 then 0
    else 2 * And(x / 2, y / 2, w - 1) + (if x % 2 == 1 && y % 2 == 1 then 1 else 0)
  }

  /** x | y on w-bit operands. */
  function Or(x: nat, y: nat, w: nat): (r: nat)
    ensures r < Pow2(w)
  {
    if w == 0 then 0
    else 2 * Or(x / 2, y / 2, w - 1) + (if x % 2 == 1 || y % 2 == 1 then 1 else 0)
  }

  /** ~x on a w-bit operand (the XOR with the all-ones word). */
  function Not(x: nat, w: nat): (r: nat)
    ensures r < Pow2(w)
  {
    if w == 0 then 0
    else 2 * Not(x / 2, w - 1) + (if x % 2 == 0 then 1 else 0)
  }

  // ---------------------------------------------------------------------------
  // The recursive definitions agree with bitwise semantics.
  // ---------------------------------------------------------------------------

  lemma {:induction false} AndBit(x: nat, y: nat, w: nat, i: nat)
    requires i < w
    ensures Bit(And(x, y, w), i) <==> Bit(x, i) && Bit(y, i)
  {
    if i > 0 {
      AndBit(x / 2, y / 2, w - 1, i - 1);
    }
  }

  lemma {:induction false} OrBit(x: nat, y: nat, w: nat, i: nat)
    requires i < w
    ensures Bit(Or(x, y, w), i) <==> Bit(x, i) || Bit(y, i)
  {
    if i > 0 {
      OrBit(x / 2, y / 2, w - 1, i - 1);
    }
  }

  lemma {:induction false} NotBit(x: nat, w: nat, i: nat)
    requires i < w
    ensures Bit(Not(x, w), i) <==> !Bit(x, i)
  {
    if i > 0 {
      NotBit(x / 2, w - 1, i - 1);
    }
  }

  /** A w-bit value has no bit set at position w or above. */
  lemma {:induction false} NoBitAbove(x: nat, w: nat, i: nat)
    requires x < Pow2(w) && w <= i
    ensures !Bit(x, i)
  {
    if w == 0 {
      assert x == 0;
      ZeroHasNoBits(i);
    } else {
      NoBitAbove(x / 2, w - 1, i - 1);
    }
  }

  lemma {:induction false} ZeroHasNoBits(i: nat)
    ensures !Bit(0, i)
  {
    if i > 0 {
      ZeroHasNoBits(i - 1);
    }
  }

  /** TopOnes(k, w) has exactly the bits k .. w-1 set. */
  lemma {:induction false} TopOnesBit(k: nat, w: nat, i: nat)
    requires k <= w
    ensures Bit(TopOnes(k, w), i) <==> k <= i < w
  {
    var m := TopOnes(k, w);
    if w <= i {
      NoBitAbove(m, w, i);
    } else if k == 0 {
      Halve(m, TopOnes(0, w - 1), 1);
      if i > 0 {
        TopOnesBit(0, w - 1, i - 1);
      }
    } else {
      Halve(m, TopOnes(k - 1, w - 1), 0);
      if i > 0 {
        TopOnesBit(k - 1, w - 1, i - 1);
      }
    }
  }

  // ---------------------------------------------------------------------------
  // Arithmetic meaning of the masks.
  // ---------------------------------------------------------------------------

  /** Quotient and remainder are unique. */
  lemma DivModUnique(x: int, d: int, q: int, r: int)
    requires d > 0 && 0 <= r < d && x == q * d + r
    ensures x / d == q && x % d == r
  {
    var q', r' := x / d, x % d;
    assert (q - q') * d == r' - r;
    if q > q' {
      MulAtLeast(q - q', d);
    } else if q < q' {
      MulAtLeast(q' - q, d);
    }
  }

  lemma MulAtLeast(n: int, d: int)
    requires n >= 1 && d > 0
    ensures n * d >= d
  {
    assert n * d == (n - 1) * d + d;
  }

  /** Rounding down to a multiple of d moves by less than d. */
  lemma RoundDown(x: nat, d: nat)
    requires d > 0
    ensures (x - x % d) % d == 0
    ensures x - x % d <= x < x - x % d + d
  {
    assert x - x % d == (x / d) * d;
    DivModUnique(x - x % d, d, x / d, 0);
  }

  /** The remainder modulo 2^k, seen from its lowest bit. */
  lemma DivModStep(x: nat, k: nat)
    requires k >= 1
    ensures x % Pow2(k) == 2 * ((x / 2) % Pow2(k - 1)) + x % 2
  {
    var d := Pow2(k - 1);
    var q := x / 2;
    var a, b := q / d, q % d;
    assert q == a * d + b;
    assert x == a * (2 * d) + (2 * b + x % 2);
    DivModUnique(x, 2 * d, a, 2 * b + x % 2);
  }

  /** Halving a value whose lowest bit is b. */
  lemma Halve(x: nat, q: nat, b: nat)
    requires b < 2 && x == 2 * q + b
    ensures x / 2 == q && x % 2 == b
  {
    DivModUnique(x, 2, q, b);
  }

  /** Dropping the lowest bit of a (w+1)-bit value leaves a w-bit value. */
  lemma HalfBelow(x: nat, w: nat)
    requires x < Pow2(w + 1)
    ensures x / 2 < Pow2(w)
  {
  }

  /** Ones(k) for k >= 1 is 1 followed by Ones(k - 1). */
  lemma OnesStep(k: nat)
    requires k >= 1
    ensures Ones(k) % 2 == 1 && Ones(k) / 2 == Ones(k - 1)
  {
    Halve(Ones(k), Ones(k - 1), 1);
  }

  /** AND with the low k ones keeps the remainder modulo 2^k. */
  lemma {:induction false} AndOnes(x: nat, k: nat, w: nat)
    requires k <= w
    ensures And(x, Ones(k), w) == x % Pow2(k)
  {
    if w == 0 {
    } else if k == 0 {
      assert Ones(0) == 0;
      AndOnes(x / 2, 0, w - 1);
    } else {
      OnesStep(k);
      AndOnes(x / 2, k - 1, w - 1);
      assert And(x, Ones(k), w) == 2 * And(x / 2, Ones(k - 1), w - 1) + x % 2;
      DivModStep(x, k);
    }
  }

  /** AND with bits k .. w-1 rounds a w-bit value down to a multiple of 2^k. */
  lemma {:induction false} AndTopOnes(x: nat, k: nat, w: nat)
    requires x < Pow2(w) && k <= w
    ensures And(x, TopOnes(k, w), w) == x - x % Pow2(k)
  {
    if w == 0 {
    } else {
      var m := TopOnes(k, w);
      HalfBelow(x, w - 1);
      if k == 0 {
        Halve(m, TopOnes(0, w - 1), 1);
        AndTopOnes(x / 2, 0, w - 1);
        assert And(x, m, w) == 2 * And(x / 2, TopOnes(0, w - 1), w - 1) + x % 2;
      } else {
        Halve(m, TopOnes(k - 1, w - 1), 0);
        AndTopOnes(x / 2, k - 1, w - 1);
        assert And(x, m, w) == 2 * And(x / 2, TopOnes(k - 1, w - 1), w - 1);
        DivModStep(x, k);
      }
    }
  }

  /** OR with the low k ones sets every bit below k. */
  lemma {:induction false} OrOnes(x: nat, k: nat, w: nat)
    requires x < Pow2(w) && k <= w
    ensures Or(x, Ones(k), w) == x - x % Pow2(k) + Ones(k)
  {
    if w == 0 {
    } else {
      HalfBelow(x, w - 1);
      if k == 0 {
        assert Ones(0) == 0;
        OrOnes(x / 2, 0, w - 1);
        assert Or(x, 0, w) == 2 * Or(x / 2, 0, w - 1) + x % 2;
      } else {
        OnesStep(k);
        OrOnes(x / 2, k - 1, w - 1);
        assert Or(x, Ones(k), w) == 2 * Or(x / 2, Ones(k - 1), w - 1) + 1;
        DivModStep(x, k);
      }
    }
  }

  /** The complement of a w-bit value x is (2^w - 1) - x. */
  lemma {:induction false} NotComplement(x: nat, w: nat)
    requires x < Pow2(w)
    ensures Not(x, w) == Ones(w) - x
  {
    if w > 0 {
      NotComplement(x / 2, w - 1);
    }
  }
}
