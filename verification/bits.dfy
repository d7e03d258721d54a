/** Integer arithmetic the subnet code relies on: powers of two (`Math.pow(2, k)` with a
    small non-negative exponent), Euclidean division facts, and the bitwise AND that
    JavaScript's `&` computes on octets. */
module Bits {

  /** 2^k, as `Math.pow(2, k)` yields it for the small exponents the tool uses. */
  function Pow2(k: nat): (r: nat)
    ensures r >= 1
    ensures k >= 1 ==> r % 2 == 0
  {
    if k == 0 then 1 else 2 * Pow2(k - 1)
  }

  lemma {:induction false} Pow2Add(a: nat, b: nat)
    ensures Pow2(a + b) == Pow2(a) * Pow2(b)
    decreases a
  {
    if a > 0 {
      Pow2Add(a - 1, b);
      assert Pow2(a + b) == 2 * Pow2(a - 1 + b);
      DoubleProduct(Pow2(a - 1), Pow2(b));
    }
  }

  lemma {:induction false} Pow2Monotone(a: nat, b: nat)
    requires a < b
    ensures Pow2(a) < Pow2(b)
    decreases b
  {
    if a < b - 1 {
      Pow2Monotone(a, b - 1);
    }
  }

  /** Division is determined by any quotient/remainder pair with the remainder in range. */
  lemma DivUnique(x: int, d: int, q: int, r: int)
    requires d > 0 && x == q * d + r && 0 <= r < d
    ensures x / d == q && x % d == r
  {
    var q', r' := x / d, x % d;
    assert (q' - q) * d == r - r';
    if q' > q {
      MulAtLeast(q' - q, d);
    } else if q' < q {
      MulAtLeast(q - q', d);
    }
  }

  lemma DivMod(x: int, d: int)
    requires d > 0
    ensures x == x / d * d + x % d && 0 <= x % d < d
  {
  }

  lemma DoubleProduct(a: int, b: int)
    ensures 2 * (a * b) == (2 * a) * b == b * (2 * a)
  {
  }

  lemma MulAssoc(a: int, b: int, c: int)
    ensures a * (b * c) == (a * b) * c
  {
  }

  lemma MulAddRight(a: int, b: int, c: int)
    ensures (a + b) * c == a * c + b * c
  {
  }

  lemma Pow2Of32()
    ensures Pow2(8) == 256 && Pow2(32) == 0x1_0000_0000
  {
    Pow2Add(8, 8);
    Pow2Add(16, 16);
  }

  lemma MulSucc(a: int, b: int)
    ensures (a + 1) * b == a * b + b
  {
  }

  lemma NonNegProduct(a: int, b: int)
    requires a >= 0 && b >= 0
    ensures a * b >= 0
  {
  }

  lemma MulAtLeast(a: int, d: int)
    requires a >= 1 && d > 0
    ensures a * d >= d
  {
    assert a * d == (a - 1) * d + d;
  }

  /** x rounded down to a multiple of d. */
  function RoundDown(x: nat, d: nat): (r: nat)
    requires d > 0
    ensures r % d == 0 && r <= x < r + d
  {
    DivMod(x, d);
    DivUnique(x / d * d, d, x / d, 0);
    x / d * d
  }

  /** Halving first and then dividing by 2^(k-1) is dividing by 2^k. */
  lemma {:induction false} HalveThenDivide(x: nat, k: nat)
    requires k >= 1
    ensures x / 2 / Pow2(k - 1) == x / Pow2(k)
  {
    var p := Pow2(k - 1);
    var q, r := x / 2 / p, x / 2 % p;
    assert x / 2 == q * p + r;
    assert x == q * (2 * p) + (2 * r + x % 2);
    DivUnique(x, 2 * p, q, 2 * r + x % 2);
  }

  /** Bitwise AND of two non-negative integers, taken bit by bit from the least significant
      bit. For operands below 2^31 this is what JavaScript's `&` returns. */
  function And(a: nat, b: nat): (r: nat)
    ensures r <= a && r <= b
    decreases a
  {
    if a == 0 || b == 0 then 0
    else 2 * And(a / 2, b / 2) + (if a % 2 == 1 && b % 2 == 1 then 1 else 0)
  }

  /** A mask of n one-bits leaves every n-bit value unchanged. */
  lemma {:induction false} AndAllOnes(x: nat, n: nat)
    requires x < Pow2(n)
    ensures And(x, Pow2(n) - 1) == x
    decreases n
  {
    if x != 0 {
      var m := Pow2(n) - 1;
      assert n >= 1;
      assert m / 2 == Pow2(n - 1) - 1 && m % 2 == 1;
      AndAllOnes(x / 2, n - 1);
    }
  }

  /** A mask whose bits k..n-1 are set and whose low k bits are clear rounds an n-bit value
      down to a multiple of 2^k. */
  lemma {:induction false} AndClearsLowBits(x: nat, n: nat, k: nat)
    requires k <= n && x < Pow2(n)
    ensures Pow2(k) <= Pow2(n)
    ensures And(x, Pow2(n) - Pow2(k)) == RoundDown(x, Pow2(k))
    decreases k
  {
    if k == 0 {
      AndAllOnes(x, n);
    } else if k == n {
      DivUnique(x, Pow2(k), 0, x);
    } else {
      Pow2Monotone(k, n);
      if x != 0 {
        AndClearsLowBitsStep(x, n, k);
      }
    }
  }

  lemma {:induction false} AndClearsLowBitsStep(x: nat, n: nat, k: nat)
    requires 1 <= k < n && 0 < x < Pow2(n)
    ensures Pow2(k) < Pow2(n)
    ensures And(x, Pow2(n) - Pow2(k)) == RoundDown(x, Pow2(k))
    decreases k, 1
  {
    MaskHalves(n, k);
    AndEven(x, Pow2(n) - Pow2(k));
    AndClearsLowBits(x / 2, n - 1, k - 1);
    RoundDownHalf(x, k);
  }

  /** The mask with bits k..n-1 set is even, and halving it gives the mask with bits
      k-1..n-2 set. */
  lemma MaskHalves(n: nat, k: nat)
    requires 1 <= k < n
    ensures Pow2(k) < Pow2(n)
    ensures Pow2(n) - Pow2(k) > 0 && (Pow2(n) - Pow2(k)) % 2 == 0
    ensures (Pow2(n) - Pow2(k)) / 2 == Pow2(n - 1) - Pow2(k - 1)
  {
    Pow2Monotone(k - 1, n - 1);
    assert Pow2(n) - Pow2(k) == 2 * (Pow2(n - 1) - Pow2(k - 1));
  }

  /** ANDing with an even mask clears bit 0 and ANDs the remaining bits. */
  lemma AndEven(x: nat, m: nat)
    requires x > 0 && m > 0 && m % 2 == 0
    ensures And(x, m) == 2 * And(x / 2, m / 2)
  {
  }

  /** Rounding down to a multiple of 2^k is rounding the halved value down to a multiple of
      2^(k-1) and doubling. */
  lemma RoundDownHalf(x: nat, k: nat)
    requires k >= 1
    ensures RoundDown(x, Pow2(k)) == 2 * RoundDown(x / 2, Pow2(k - 1))
  {
    var p := Pow2(k - 1);
    assert Pow2(k) == 2 * p;
    HalveThenDivide(x, k);
    DoubleProduct(p, x / Pow2(k));
  }

}
