/** Request and acknowledge vectors as natural numbers: one bit per port,
    bit i standing for port i. */
module Bits {

  /** 2^n, the weight of bit n. */
  function Pow2(n: nat): (p: nat)
    ensures p >= 1
  {
    if n == 0 then 1 else 2 * Pow2(n - 1)
  }

  /** Bit i of the vector r is set: the vector shifted right i times is odd.
      BitIsDivision states that this is (r / 2^i) % 2 == 1. */
  predicate Bit(r: nat, i: nat)
  {
    if i == 0 then r % 2 == 1 else Bit(r / 2, i - 1)
  }

  /** Splitting the multiplier: (u + v) * c == u * c + v * c. */
  lemma MulDistrib(u: int, v: int, c: int)
    ensures (u + v) * c == u * c + v * c
  {
  }

  /** Moving a factor 2 across a product. */
  lemma MulTwo(h: int, p: int)
    ensures h * (2 * p) == (2 * h) * p
  {
  }

  /** A product of naturals is a natural. */
  lemma MulNonnegative(a: nat, b: nat)
    ensures 0 <= a * b
  {
  }

  /** a * b is at least a when b is positive. */
  lemma MulAtLeast(a: nat, b: nat)
    requires 1 <= b
    ensures a <= a * b
  {
    assert a * b == a * (b - 1) + a;
  }

  /** Multiplying by a keeps the order of u and v. */
  lemma MulMonotone(a: nat, u: nat, v: nat)
    requires u <= v
    ensures a * u <= a * v
  {
    var w: nat := v - u;
    assert a * v == a * u + a * w;
  }

  /** q units of p plus low, rewritten around the even part 2 * h of q: dropping
      the odd unit leaves r, which differs from q * p + low by (q % 2) * p. */
  lemma SplitAtUnit(x: nat, p: nat, q: nat, low: nat, h: nat, r: int)
    requires x == q * p + low && h == q / 2
    requires r == low + h * (2 * p)
    ensures 0 <= r
    ensures r == (2 * h) * p + low
    ensures x == r + (q % 2) * p
  {
  }

  /** x with its unit at weight p dropped: the part of x below p plus the
      multiples of 2 * p in x. It is x / p rounded down to even, times p, plus
      the part below p, and x exceeds it by (x / p % 2) * p. */
  lemma DropUnit(x: nat, p: nat, r: int)
    requires 1 <= p
    requires r == x % p + x / (2 * p) * (2 * p)
    ensures 0 <= r
    ensures r == (x / p / 2 * 2) * p + x % p
    ensures x == r + (x / p % 2) * p
  {
    var q, low := x / p, x % p;
    assert x == q * p + low;
    assert x / (2 * p) == q / 2 by {
      DivDiv(x, p, 2);
      assert p * 2 == 2 * p;
    }
    SplitAtUnit(x, p, q, low, q / 2, r);
  }

  /** Euclidean division is determined by quotient and remainder. */
  lemma DivUnique(x: int, d: int, q: int, m: int)
    requires 0 < d && 0 <= m < d && x == d * q + m
    ensures x / d == q && x % d == m
  {
    var q', m' := x / d, x % d;
    assert x == d * q' + m';
    if q < q' {
      assert d * q' == d * q + d * (q' - q);
      MulAtLeast(d, q' - q);
    } else if q' < q {
      assert d * q == d * q' + d * (q - q');
      MulAtLeast(d, q - q');
    }
  }

  /** Dividing by a, then by b, is dividing by a * b. */
  lemma DivDiv(x: nat, a: nat, b: nat)
    requires 0 < a && 0 < b
    ensures x / (a * b) == x / a / b
  {
    var q, s := x / a, x % a;
    var q2, t := q / b, q % b;
    assert x == a * q + s;
    assert q == b * q2 + t;
    assert a * q == (a * b) * q2 + a * t by {
      assert a * q == a * (b * q2) + a * t;
      assert a * (b * q2) == (a * b) * q2;
    }
    MulMonotone(a, t, b - 1);
    assert a * (b - 1) == a * b - a;
    DivUnique(x, a * b, q2, a * t + s);
  }

  /** Bit i is the parity of r / 2^i. */
  lemma {:induction false} BitIsDivision(r: nat, i: nat)
    ensures Bit(r, i) == ((r / Pow2(i)) % 2 == 1)
  {
    if i > 0 {
      BitIsDivision(r / 2, i - 1);
      DivDiv(r, 2, Pow2(i - 1));
    }
  }

  /** The zero vector has no bit set. */
  lemma {:induction false} BitOfZero(i: nat)
    ensures !Bit(0, i)
  {
    if i > 0 {
      BitOfZero(i - 1);
    }
  }

  /** The bits of a * 2^n + c with c < 2^n: the low n bits are those of c,
      the rest those of a. */
  lemma {:induction false} BitsOfSum(a: nat, c: nat, n: nat, i: nat)
    requires c < Pow2(n)
    ensures Bit(a * Pow2(n) + c, i) == if i < n then Bit(c, i) else Bit(a, i - n)
  {
    if n == 0 {
      assert c == 0 && a * Pow2(n) + c == a;
    } else {
      var p := Pow2(n - 1);
      var x := a * Pow2(n) + c;
      assert Pow2(n) == 2 * p;
      assert x == 2 * (a * p + c / 2) + c % 2;
      DivUnique(x, 2, a * p + c / 2, c % 2);
      if i > 0 {
        BitsOfSum(a, c / 2, n - 1, i - 1);
      }
    }
  }

  /** Clearing bit 0 (q / 2 * 2) leaves every other bit alone. */
  lemma EvenBits(q: nat, k: nat)
    ensures Bit(q / 2 * 2, k) == (k != 0 && Bit(q, k))
  {
  }

  /** A vector with bit k set is at least 2^k. */
  lemma {:induction false} BitImpliesAtLeast(r: nat, k: nat)
    requires Bit(r, k)
    ensures Pow2(k) <= r
  {
    if k > 0 {
      BitImpliesAtLeast(r / 2, k - 1);
    }
  }

  lemma {:induction false} Pow2Monotone(a: nat, b: nat)
    requires a <= b
    ensures Pow2(a) <= Pow2(b)
  {
    if a < b {
      Pow2Monotone(a, b - 1);
    }
  }

  /** 2^m has exactly one bit set, bit m. */
  lemma {:induction false} Pow2Bits(m: nat, i: nat)
    ensures Bit(Pow2(m), i) == (i == m)
  {
    if i > 0 {
      if m == 0 {
        BitOfZero(i - 1);
      } else {
        Pow2Bits(m - 1, i - 1);
      }
    }
  }
}
