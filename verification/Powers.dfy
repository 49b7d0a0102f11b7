/** Powers of two, and the bit trick of vine_to_tree. */
module Powers {

  function Pow2(n: nat): (r: nat)
    ensures r > 0
  {
    if n == 0 then 1 else 2 * Pow2(n - 1)
  }

  lemma {:induction false} Pow2Monotonic(a: nat, b: nat)
    requires a <= b
    ensures Pow2(a) <= Pow2(b)
  {
    if a < b {
      Pow2Monotonic(a, b - 1);
    }
  }

  lemma {:induction false} Pow2Add(a: nat, b: nat)
    ensures Pow2(a + b) == Pow2(a) * Pow2(b)
  {
    if b > 0 {
      Pow2Add(a, b - 1);
    }
  }

  // The C operator & on unsigned numbers, bit by bit.
  function And(a: nat, b: nat): nat {
    if a == 0 || b == 0 then 0 else 2 * And(a / 2, b / 2) + (if a % 2 == 1 && b % 2 == 1 then 1 else 0)
  }

  // x & (x - 1) clears the lowest 1 bit of x: what is left is smaller, lies between the same
  // powers of two, and is 0 exactly for a power of two.
  lemma {:induction false} ClearLowBit(x: nat, k: nat)
    requires Pow2(k) <= x < Pow2(k + 1)
    ensures And(x, x - 1) == 0 <==> x == Pow2(k)
    ensures x > Pow2(k) ==> Pow2(k) <= And(x, x - 1) < x
  {
    if k == 0 {
      assert x == 1;
    } else if x % 2 == 0 {
      assert (x - 1) / 2 == x / 2 - 1 && (x - 1) % 2 == 1;
      ClearLowBit(x / 2, k - 1);
    } else {
      assert (x - 1) / 2 == x / 2;
      AndSelf(x / 2);
    }
  }

  lemma {:induction false} AndSelf(x: nat)
    ensures And(x, x) == x
  {
    if x > 0 {
      AndSelf(x / 2);
    }
  }

  // The exponent of the largest power of two not above x.
  lemma {:induction false} Log2(x: nat) returns (k: nat)
    requires x > 0
    ensures Pow2(k) <= x < Pow2(k + 1)
  {
    if x == 1 {
      k := 0;
    } else {
      k := Log2(x / 2);
      k := k + 1;
    }
  }
}
