/** Go's *big.Int as a mutable cell, and the bit operations of math/big that
    RotateBigInt (babel/babel.go:174-180) and GeneratePage (babel/babel.go:67) use,
    on non-negative values. */
module BigInts {
  import opened Numeral

  /** A *big.Int that a function changes in place (Div, Mod, DivMod with itself as receiver). */
  class BigInt {
    var value: int

    constructor (v: int)
      ensures value == v
    {
      value := v;
    }
  }

  /** big.Int.BitLen: the number of bits of n, 0 for 0. */
  function BitLen(n: nat): (r: nat)
    ensures r == 0 <==> n == 0
    ensures n < Pow(2, r)
    ensures n > 0 ==> Pow(2, r - 1) <= n
  {
    if n == 0 then 0
    else
      var r := 1 + BitLen(n / 2);
      assert Pow(2, r) == 2 * Pow(2, r - 1);
      r
  }

  /** big.Int.Lsh: x shifted left by k bits, one bit at a time. */
  function Lsh(x: nat, k: nat): (r: nat)
    ensures x <= r && (r == 0 <==> x == 0)
  {
    if k == 0 then x else 2 * Lsh(x, k - 1)
  }

  /** big.Int.Rsh on a non-negative value: x shifted right by k bits, one bit at a time. */
  function Rsh(x: nat, k: nat): (r: nat)
    ensures r <= x
  {
    if k == 0 then x else Rsh(x / 2, k - 1)
  }

  /** A left shift by k bits multiplies by 2^k. */
  lemma {:induction false} LshIsMul(x: nat, k: nat)
    ensures Lsh(x, k) == x * Pow(2, k)
  {
    if k > 0 {
      var p := Pow(2, k - 1);
      LshIsMul(x, k - 1);
      assert Lsh(x, k) == 2 * (x * p);
      assert 2 * (x * p) == x * (2 * p);
    }
  }

  /** A right shift by k bits divides by 2^k, rounding down. */
  lemma {:induction false} RshIsDiv(x: nat, k: nat)
    ensures Rsh(x, k) == x / Pow(2, k)
  {
    if k > 0 {
      var p := Pow(2, k - 1);
      RshIsDiv(x / 2, k - 1);
      HalveThenDivide(x, p);
      assert Pow(2, k) == 2 * p;
    }
  }

  /** Halving and then dividing by p divides by 2p. */
  lemma HalveThenDivide(x: nat, p: nat)
    requires p > 0
    ensures x / 2 / p == x / (2 * p)
  {
    var q, r := x / (2 * p), x % (2 * p);
    DivModParts(x, 2 * p);
    assert x == (q * p + r / 2) * 2 + r % 2;
    DivModOfSum(q * p + r / 2, 2, r % 2);
    assert r / 2 < p;
    DivModOfSum(q, p, r / 2);
  }

  /** big.Int.Or on non-negative values, bit by bit from the least significant bit. */
  function Or(a: nat, b: nat): (r: nat)
    ensures a <= r && b <= r && r <= a + b
    decreases a + b
  {
    if a == 0 then b
    else if b == 0 then a
    else 2 * Or(a / 2, b / 2) + (if a % 2 == 1 || b % 2 == 1 then 1 else 0)
  }
}
