/** Definitions shared by the other modules. */
module Common {
  datatype Option<+T> = None | Some(value: T)

  const PAGE_SIZE: nat := 0x1000

  function Min(a: nat, b: nat): (m: nat)
    ensures m <= a && m <= b && (m == a || m == b)
  {
    if a <= b then a else b
  }

  /** Bitwise AND of two unsigned integers of any width. */
  function And(a: nat, b: nat): (r: nat)
    ensures r <= a
    ensures r <= b
  {
    if a == 0 || b == 0 then
      0
    else
      2 * And(a / 2, b / 2) + (if a % 2 == 1 && b % 2 == 1 then 1 else 0)
  }

  function ShiftLeft(a: nat, n: nat): nat {
    if n == 0 then a else 2 * ShiftLeft(a, n - 1)
  }

  function ShiftRight(a: nat, n: nat): nat {
    if n == 0 then a else ShiftRight(a / 2, n - 1)
  }

  lemma AndDouble(a: nat, mask: nat)
    ensures And(a, 2 * mask) == 2 * And(a / 2, mask)
  {
    assert (2 * mask) / 2 == mask && (2 * mask) % 2 == 0;
  }

  /** A mask shifted left by `n` only looks at the bits of `a` from `n` upwards. */
  lemma {:induction false} AndShifted(a: nat, mask: nat, n: nat)
    ensures And(a, ShiftLeft(mask, n)) == ShiftLeft(And(ShiftRight(a, n), mask), n)
  {
    if n > 0 {
      AndDouble(a, ShiftLeft(mask, n - 1));
      AndShifted(a / 2, mask, n - 1);
    }
  }

  lemma ShiftRightThree(a: nat, n: nat)
    requires n >= 3
    ensures ShiftRight(a, n) == ShiftRight(a / 8, n - 3)
  {
    assert ShiftRight(a, n) == ShiftRight(a / 2, n - 1) == ShiftRight(a / 2 / 2, n - 2) ==
      ShiftRight(a / 2 / 2 / 2, n - 3);
    assert a / 2 / 2 / 2 == a / 8;
  }

  lemma ShiftRightPage(a: nat)
    ensures ShiftRight(a, 12) == a / 4096
  {
    ShiftRightThree(a, 12);
    ShiftRightThree(a / 8, 9);
    ShiftRightThree(a / 8 / 8, 6);
    ShiftRightThree(a / 8 / 8 / 8, 3);
    assert a / 8 / 8 / 8 / 8 == a / 4096;
  }

  lemma {:induction false} ShiftLeftPage(a: nat)
    ensures ShiftLeft(a, 12) == a * 4096
  {
    ShiftLeftFour(a, 0);
    ShiftLeftFour(a, 4);
    ShiftLeftFour(a, 8);
  }

  lemma {:induction false} ShiftLeftFour(a: nat, n: nat)
    ensures ShiftLeft(a, n + 4) == 16 * ShiftLeft(a, n)
  {
    assert ShiftLeft(a, n + 4) == 2 * ShiftLeft(a, n + 3) == 4 * ShiftLeft(a, n + 2) == 8 * ShiftLeft(a, n + 1);
  }

  function Pow2(n: nat): (p: nat)
    ensures p > 0
  {
    if n == 0 then 1 else 2 * Pow2(n - 1)
  }

  lemma HalfOfRemainder(a: nat, p: nat)
    requires p > 0
    ensures a % (2 * p) == 2 * (a / 2 % p) + a % 2
    ensures a % (2 * p) / 2 == a / 2 % p
  {
    var q, r := a / 2 / p, a / 2 % p;
    assert a / 2 == q * p + r && a == 2 * (a / 2) + a % 2;
    assert a == q * (2 * p) + (2 * r + a % 2);
    DivisionUnique(a, q, 2 * r + a % 2, 2 * p);
  }

  lemma HalvesOfQuotient(x: nat, p: nat)
    requires p > 0
    ensures x / 2 / p == x / (2 * p)
  {
    var q, r := x / 2 / p, x / 2 % p;
    assert x / 2 == q * p + r && x == 2 * (x / 2) + x % 2;
    assert x == q * (2 * p) + (2 * r + x % 2);
    DivisionUnique(x, q, 2 * r + x % 2, 2 * p);
  }

  /** A mask of the low `w` bits is a remainder. */
  lemma {:induction false} AndLowBits(a: nat, w: nat)
    ensures And(a, Pow2(w) - 1) == a % Pow2(w)
  {
    if w > 0 {
      var mask := Pow2(w) - 1;
      assert mask / 2 == Pow2(w - 1) - 1 && mask % 2 == 1;
      AndLowBits(a / 2, w - 1);
      HalfOfRemainder(a, Pow2(w - 1));
    }
  }

  /** The mask of the bits from `k` up to `w`. */
  lemma {:induction false} HighMask(w: nat, k: nat)
    requires k <= w
    ensures ShiftLeft(Pow2(w - k) - 1, k) + Pow2(k) == Pow2(w)
  {
    if k > 0 {
      HighMask(w - 1, k - 1);
    }
  }

  lemma {:induction false} ShiftRightIsQuotient(a: nat, k: nat)
    ensures ShiftRight(a, k) == a / Pow2(k)
  {
    if k > 0 {
      ShiftRightIsQuotient(a / 2, k - 1);
      HalvesOfQuotient(a, Pow2(k - 1));
    }
  }

  lemma {:induction false} ShiftRightBelow(a: nat, w: nat, k: nat)
    requires k <= w && a < Pow2(w)
    ensures ShiftRight(a, k) < Pow2(w - k)
  {
    if k > 0 {
      ShiftRightBelow(a / 2, w - 1, k - 1);
    }
  }

  lemma {:induction false} ShiftLeftInjective(a: nat, b: nat, k: nat)
    ensures ShiftLeft(a, k) == ShiftLeft(b, k) <==> a == b
  {
    if k > 0 {
      ShiftLeftInjective(a, b, k - 1);
    }
  }

  /** Under the mask of the bits from `k` up to `w` two numbers below 2^w agree if they do in those bits. */
  lemma {:induction false} AndHighMask(a: nat, b: nat, mask: nat, w: nat, k: nat)
    requires k <= w && a < Pow2(w) && b < Pow2(w) && mask + Pow2(k) == Pow2(w)
    ensures And(a, mask) == And(b, mask) <==> ShiftRight(a, k) == ShiftRight(b, k)
  {
    AndHighBits(a, mask, w, k);
    AndHighBits(b, mask, w, k);
    ShiftLeftInjective(ShiftRight(a, k), ShiftRight(b, k), k);
  }

  lemma {:induction false} AndHighBits(a: nat, mask: nat, w: nat, k: nat)
    requires k <= w && a < Pow2(w) && mask + Pow2(k) == Pow2(w)
    ensures And(a, mask) == ShiftLeft(ShiftRight(a, k), k)
  {
    var low, x := Pow2(w - k) - 1, ShiftRight(a, k);
    HighMask(w, k);
    AndShifted(a, low, k);
    ShiftRightBelow(a, w, k);
    assert And(x, low) == x by {
      AndLowBits(x, w - k);
      SmallRemainder(x, Pow2(w - k));
    }
  }

  lemma {:induction false} SmallRemainder(x: nat, p: nat)
    requires x < p
    ensures x % p == x
  {
  }

  lemma DivisionUnique(a: nat, q: nat, r: nat, s: nat)
    requires a == q * s + r && r < s
    ensures a / s == q && a % s == r
  {
    MultiplesApart(a / s, q, s);
    MultiplesApart(q, a / s, s);
  }

  lemma MultiplesApart(p: nat, q: nat, s: nat)
    ensures p < q ==> p * s + s <= q * s
  {
    if p < q {
      var d: nat := q - p - 1;
      assert q * s == (p + 1 + d) * s == p * s + s + d * s;
    }
  }
}
