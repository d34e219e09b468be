/** Byte offsets of the bitmap allocator in units, entries and groups. */
module BitmapUnits {
  import opened IntArith

  const TwoTo64: nat := 0x1_0000_0000_0000_0000

  /** `x / d`, rounded up. */
  function Ceil(x: nat, d: nat): nat
    requires 0 < d
  {
    if x == 0 then 0 else (x - 1) / d + 1
  }

  lemma MulDiv(a: nat, d: nat)
    requires 0 < d
    ensures a * d / d == a && a * d % d == 0
  {
    DivUnique(a * d, d, a, 0);
  }

  lemma CeilOf(q: nat, r: nat, d: nat)
    requires r < d
    ensures Ceil(q * d + r, d) == if r == 0 then q else q + 1
  {
    if r != 0 {
      DivUnique(q * d + r - 1, d, q, r - 1);
    } else if q != 0 {
      assert q * d == (q - 1) * d + d;
      DivUnique(q * d - 1, d, q - 1, d - 1);
    }
  }

  /** The source's `round_up(x, d) / d`. */
  lemma RoundUpDiv(x: nat, d: nat)
    requires 0 < d
    ensures P2RoundUp(x, d) / d == Ceil(x, d)
  {
    var q, r := x / d, x % d;
    DivMod(x, d);
    CeilOf(q, r, d);
    if r != 0 {
      assert x - r + d == (q + 1) * d;
      MulDiv(q + 1, d);
    }
  }

  lemma DivDiv(x: nat, g: nat, m: nat)
    requires 0 < g && 0 < m
    ensures x / (m * g) == x / g / m
  {
    var q, r := x / g, x % g;
    var p, s := q / m, q % m;
    DivMod(x, g);
    DivMod(q, m);
    assert x == p * (m * g) + (s * g + r) by {
      assert p * m * g + s * g == q * g;
      assert p * (m * g) == p * m * g;
    }
    MulLe(s + 1, m, g);
    DivUnique(x, m * g, p, s * g + r);
  }

  lemma CeilCeil(x: nat, g: nat, m: nat)
    requires 0 < g && 0 < m
    ensures Ceil(x, m * g) == Ceil(Ceil(x, g), m)
  {
    if x != 0 {
      DivDiv(x - 1, g, m);
    }
  }

  /** Rounding in units. */
  lemma CeilMultiple(n: nat, g: nat)
    requires 0 < g
    ensures Ceil(n * g, g) == n && n * g / g == n
  {
    MulDiv(n, g);
    if n != 0 {
      assert n * g - 1 == (n - 1) * g + (g - 1);
      DivUnique(n * g - 1, g, n - 1, g - 1);
    }
  }

  // The conversions as the allocator's contracts use them: by repeated
  // subtraction, with the division they equal.

  /** The whole units in `x` bytes: `x / g`. */
  function Whole(x: nat, g: nat): nat
    requires 0 < g
  {
    if x < g then 0 else 1 + Whole(x - g, g)
  }

  /** The units that `x` bytes reach into: `round_up(x, g) / g`. */
  function Reach(x: nat, g: nat): nat
    requires 0 < g
  {
    if x == 0 then 0 else if x < g then 1 else 1 + Reach(x - g, g)
  }

  lemma {:induction false} WholeIs(x: nat, g: nat)
    requires 0 < g
    ensures Whole(x, g) == x / g
  {
    if g <= x {
      WholeIs(x - g, g);
      Backwards2(x, g);
    } else {
      DivUnique(x, g, 0, x);
    }
  }

  lemma Backwards2(x: nat, g: nat)
    requires 0 < g <= x
    ensures (x - g) / g == x / g - 1 && (x - g) % g == x % g
  {
    DivMod(x - g, g);
    DivUnique(x, g, (x - g) / g + 1, (x - g) % g);
  }

  lemma {:induction false} ReachIs(x: nat, g: nat)
    requires 0 < g
    ensures Reach(x, g) == Ceil(x, g) == P2RoundUp(x, g) / g
  {
    RoundUpDiv(x, g);
    if g < x {
      ReachIs(x - g, g);
      Backwards2(x - 1, g);
    } else if g == x {
      CeilMultiple(1, g);
    } else if x != 0 {
      DivUnique(x - 1, g, 0, x - 1);
    }
  }

  /** `round_up(x, g)`. */
  lemma RoundsUp(x: nat, g: nat)
    requires 0 < g
    ensures Times(Reach(x, g), g) == P2RoundUp(x, g)
  {
    ReachIs(x, g);
    TimesIs(Reach(x, g), g);
    DivMod(P2RoundUp(x, g), g);
  }

  /** `align_down(x, g)`. */
  lemma AlignsDown(x: nat, g: nat)
    requires 0 < g
    ensures Times(Whole(x, g), g) == P2Align(x, g)
  {
    WholeIs(x, g);
    TimesIs(Whole(x, g), g);
    DivMod(x, g);
  }

  lemma {:induction false} Exactly(n: nat, g: nat)
    requires 0 < g
    ensures Whole(Times(n, g), g) == n && Reach(Times(n, g), g) == n
  {
    if n != 0 {
      Exactly(n - 1, g);
    }
  }

  lemma {:induction false} Bounds(x: nat, g: nat)
    requires 0 < g
    ensures Times(Whole(x, g), g) <= x < Times(Whole(x, g), g) + g
    ensures x <= Times(Reach(x, g), g) < x + g
    ensures Whole(x, g) <= Reach(x, g) <= Whole(x, g) + 1
  {
    if g <= x {
      Bounds(x - g, g);
    }
  }

  lemma TimesMono(m: nat, n: nat, g: nat)
    requires m <= n
    ensures Times(m, g) <= Times(n, g)
  {
    TimesSum(m, n - m, g);
  }

  /** The order of units is the order of their bytes. */
  lemma TimesOrder(m: nat, n: nat, g: nat)
    requires 0 < g
    ensures m <= n <==> Times(m, g) <= Times(n, g)
  {
    if m <= n {
      TimesMono(m, n, g);
    } else {
      TimesMono(n + 1, m, g);
    }
  }

  /** What fits into `n` units. */
  lemma Inside(x: nat, n: nat, g: nat)
    requires 0 < g && x <= Times(n, g)
    ensures Whole(x, g) <= Reach(x, g) <= n
  {
    Bounds(x, g);
    TimesOrder(n + 1, Reach(x, g), g);
  }

  /** Levels of granularity compose. */
  lemma Coarser(x: nat, g: nat)
    requires 0 < g
    ensures Whole(x, 131072 * g) == Whole(x, g) / 131072
    ensures Reach(x, 131072 * g) == Ceil(Reach(x, g), 131072)
  {
    WholeIs(x, 131072 * g);
    WholeIs(x, g);
    DivDiv(x, g, 131072);
    ReachIs(x, 131072 * g);
    ReachIs(x, g);
    CeilCeil(x, g, 131072);
  }

  lemma Scaled(n: nat, m: nat, g: nat)
    ensures Times(n, m * g) == Times(m * n, g)
  {
    TimesIs(n, m * g);
    TimesIs(m * n, g);
    Reordered(n, m, g);
  }

  lemma Reordered(n: nat, m: nat, g: nat)
    ensures n * (m * g) == m * n * g
  {
  }

  /** The slot counts of the three levels, from the capacity rounded up to whole groups. */
  lemma SlotCounts(n: nat, g: nat)
    requires 0 < g
    ensures Whole(Times(n, 131072 * g), g) == 131072 * n
    ensures Whole(Times(n, 131072 * g), 512 * g) == 256 * n
    ensures Times(n, 131072 * g) == Times(131072 * n, g)
  {
    Scaled(n, 131072, g);
    Scaled(n, 256, 512 * g);
    Exactly(131072 * n, g);
    Exactly(256 * n, 512 * g);
  }

  lemma GroupSlots(x: nat, h: nat)
    requires 0 < h
    ensures Reach(x, h) <= 64 * Reach(x, 64 * h)
  {
    ReachIs(x, h);
    ReachIs(x, 64 * h);
    CeilCeil(x, h, 64);
  }

  lemma {:induction false} Shift(x: nat, n: nat, g: nat)
    requires 0 < g
    ensures Whole(x + Times(n, g), g) == Whole(x, g) + n
    ensures Reach(x + Times(n, g), g) == Reach(x, g) + n
    decreases n
  {
    if n != 0 {
      Shift(x, n - 1, g);
      var y := x + Times(n, g);
      assert g <= y && y - g == x + Times(n - 1, g);
    }
  }

  /** The whole units within `offset..offset + length`, as `init_add_free` computes them. */
  lemma InnerUnits(offset: nat, length: nat, g: nat, lo: nat, hi: nat, n: nat)
    requires 0 < g && lo == Reach(offset, g) && hi == Whole(offset + length, g)
    requires Times(lo, g) <= offset + length <= Times(n, g) < TwoTo64
    ensures lo <= hi <= n && Whole(Times(lo, g), g) == lo && (Times(hi - lo, g) == 0 <==> lo == hi)
    ensures Times(Whole((TwoTo64 + offset + length - Times(lo, g)) % TwoTo64, g), g) == Times(hi - lo, g)
    ensures Times(lo, g) + Times(hi - lo, g) <= Times(n, g) && Reach(Times(lo, g) + Times(hi - lo, g), g) == hi
  {
    var x := offset + length;
    Bounds(x, g);
    Inside(x, n, g);
    TimesOrder(hi + 1, lo, g);
    Exactly(lo, g);
    Exactly(hi, g);
    TimesSum(hi - lo, lo, g);
    TimesMono(hi, n, g);
    InnerLength(x, g, lo, hi);
  }

  lemma WrapAround(y: nat)
    requires y < TwoTo64
    ensures (TwoTo64 + y) % TwoTo64 == y
  {
  }

  lemma InnerLength(x: nat, g: nat, lo: nat, hi: nat)
    requires 0 < g && hi == Whole(x, g) && lo <= hi && Times(lo, g) <= x < TwoTo64
    ensures Whole((TwoTo64 + x - Times(lo, g)) % TwoTo64, g) == hi - lo
  {
    var y := x - Times(lo, g);
    WrapAround(y);
    Shift(y, lo, g);
  }

  /** No whole unit fits. */
  lemma NoUnit(offset: nat, length: nat, g: nat, lo: nat, hi: nat)
    requires 0 < g && lo == Reach(offset, g) && hi == Whole(offset + length, g) && offset + length < Times(lo, g)
    ensures lo == hi + 1 && Times(lo, g) == Times(hi, g) + g && Times(hi, g) <= offset + length
  {
    var x := offset + length;
    Bounds(offset, g);
    Bounds(x, g);
    assert 0 < lo;
    TimesOrder(lo, hi, g);
    TimesOrder(lo, hi + 1, g);
    TimesOrder(hi + 2, lo, g);
  }

  /** Then the length wraps around to one unit less than nothing. */
  lemma WrappedUnits(offset: nat, length: nat, g: nat, lo: nat, hi: nat, n: nat)
    requires 0 < g && lo == Reach(offset, g) && hi == Whole(offset + length, g)
    requires offset + length < Times(lo, g) && offset + length <= Times(n, g) < TwoTo64
    requires exists m: nat :: TwoTo64 == Times(m, g)
    ensures lo == hi + 1 && Times(lo, g) == Times(hi, g) + g <= Times(n, g)
    ensures Times(Whole((TwoTo64 + offset + length - Times(lo, g)) % TwoTo64, g), g) == TwoTo64 - g
    ensures (Times(lo, g) + (TwoTo64 - g)) % TwoTo64 == Times(lo, g) - g
  {
    NoUnit(offset, length, g, lo, hi);
    Inside(offset, n, g);
    TimesMono(lo, n, g);
    var m: nat :| TwoTo64 == Times(m, g);
    var x, y := offset + length - Times(hi, g), TwoTo64 + offset + length - Times(lo, g);
    assert 0 < m && y == x + Times(m - 1, g) && y % TwoTo64 == y;
    Shift(x, m - 1, g);
  }

  /** A unit lies in a range of whole units exactly when its first byte does. */
  lemma UnitInRange(u: nat, lo: nat, hi: nat, g: nat)
    requires 0 < g
    ensures lo <= u < hi <==> Times(lo, g) <= Times(u, g) < Times(hi, g)
  {
    TimesOrder(lo, u, g);
    TimesOrder(hi, u, g);
  }
}
