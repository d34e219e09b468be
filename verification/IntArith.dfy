/** Integer arithmetic shared by the components (`common/intarith.h`). */
module IntArith {

  lemma MulLe(a: nat, b: nat, m: nat)
    requires a <= b
    ensures a * m <= b * m
  {
  }

  lemma DivMod(x: nat, d: nat)
    requires 0 < d
    ensures x == x / d * d + x % d
  {
  }

  lemma DivUnique(x: nat, d: nat, q: nat, r: nat)
    requires x == q * d + r && r < d
    ensures x / d == q && x % d == r
  {
    var p := x / d;
    assert x == p * d + x % d;
    if p < q {
      MulLe(p + 1, q, d);
      assert false;
    }
    if q < p {
      MulLe(q + 1, p, d);
      assert false;
    }
  }

  /** `p2align`: the multiple of `a` at or below `x`. */
  function P2Align(x: nat, a: nat): (r: nat)
    requires 0 < a
    ensures r % a == 0 && r <= x < r + a
  {
    DivMod(x, a);
    DivUnique(x - x % a, a, x / a, 0);
    x - x % a
  }

  /** `p2roundup`: the multiple of `a` at or above `x`. */
  function P2RoundUp(x: nat, a: nat): (r: nat)
    requires 0 < a
    ensures r % a == 0 && x <= r < x + a
  {
    DivMod(x, a);
    DivUnique(x - x % a + a, a, x / a + 1, 0);
    if x % a == 0 then x else x - x % a + a
  }

  lemma MulOrder(p: nat, q: nat, a: nat)
    requires 0 < a
    ensures p * a <= q * a ==> p <= q
  {
    if q < p {
      MulLe(q + 1, p, a);
    }
  }

  lemma MultipleSum(x: nat, y: nat, a: nat)
    requires 0 < a && x % a == 0 && y % a == 0
    ensures (x + y) % a == 0 && (y <= x ==> (x - y) % a == 0)
  {
    DivMod(x, a);
    DivMod(y, a);
    assert x + y == (x / a + y / a) * a;
    DivUnique(x + y, a, x / a + y / a, 0);
    if y <= x {
      MulOrder(y / a, x / a, a);
      assert x - y == (x / a - y / a) * a;
      DivUnique(x - y, a, x / a - y / a, 0);
    }
  }

  /** A positive multiple of `a` is at least `a`. */
  lemma MultipleAtLeast(x: nat, a: nat)
    requires 0 < a && x % a == 0 && 0 < x
    ensures a <= x
  {
  }

  ghost function Pow2(n: nat): (r: nat)
    ensures 0 < r
  {
    if n == 0 then 1 else 2 * Pow2(n - 1)
  }

  /** The number of trailing zero bits. */
  function Ctz(n: nat): nat
    requires 0 < n
  {
    if n % 2 == 1 then 0 else 1 + Ctz(n / 2)
  }

  /** `n` units of `g` bytes. */
  function Times(n: nat, g: nat): nat {
    if n == 0 then 0 else Times(n - 1, g) + g
  }

  lemma {:induction false} TimesIs(n: nat, g: nat)
    ensures Times(n, g) == n * g
  {
    if n != 0 {
      TimesIs(n - 1, g);
      assert n * g == (n - 1) * g + g;
    }
  }

  lemma {:induction false} TimesSum(m: nat, n: nat, g: nat)
    ensures Times(m + n, g) == Times(m, g) + Times(n, g)
  {
    if n != 0 {
      TimesSum(m, n - 1, g);
    }
  }
}
