/**
 64-bit slots (`blk/bitmap_allocator.h`).  A slot is its unsigned value; the
 machine's bitwise operators are spelled out bit by bit from the low end.
 */
module Slot {
  import opened IntArith

  type slot = w: nat | w < 0x1_0000_0000_0000_0000

  const AllSet: slot := 0xffff_ffff_ffff_ffff
  const AllClear: slot := 0

  /** Bit `k` of the binary expansion of `w`. */
  predicate Test(w: nat, k: nat) {
    if k == 0 then w % 2 == 1 else Test(w / 2, k - 1)
  }

  function And(v: nat, w: nat): (r: nat)
    ensures r <= v && r <= w
  {
    if v == 0 || w == 0 then 0
    else 2 * And(v / 2, w / 2) + if v % 2 == 1 && w % 2 == 1 then 1 else 0
  }

  function Not(w: slot): slot {
    AllSet - w
  }

  function Or(v: slot, w: slot): slot {
    Not(And(Not(v), Not(w)))
  }

  /** `w << n`, which drops the bits that leave the slot. */
  function Shl(w: slot, n: nat): slot {
    if n == 0 then w else (2 * Shl(w, n - 1)) % 0x1_0000_0000_0000_0000
  }

  function Shr(w: slot, n: nat): slot {
    if n == 0 then w else Shr(w / 2, n - 1)
  }

  /** `slot_t(1) << k`. */
  function Bit(k: nat): slot {
    Shl(1, k)
  }

  lemma Pow64()
    ensures Pow2(63) == 0x8000_0000_0000_0000 && Pow2(64) == 0x1_0000_0000_0000_0000
  {
    assert Pow2(8) == 256;
    assert Pow2(16) == 256 * Pow2(8);
    assert Pow2(24) == 256 * Pow2(16);
    assert Pow2(32) == 256 * Pow2(24);
    assert Pow2(40) == 256 * Pow2(32);
    assert Pow2(48) == 256 * Pow2(40);
    assert Pow2(56) == 256 * Pow2(48);
  }

  lemma {:induction false} TestZero(k: nat)
    ensures !Test(0, k)
  {
    if k != 0 {
      TestZero(k - 1);
    }
  }

  lemma {:induction false} TestAnd(v: nat, w: nat, k: nat)
    ensures Test(And(v, w), k) <==> Test(v, k) && Test(w, k)
    decreases k
  {
    TestZero(k);
    if k != 0 {
      TestAnd(v / 2, w / 2, k - 1);
      TestZero(k - 1);
    }
  }

  lemma {:induction false} TestComplement(n: nat, w: nat, k: nat)
    requires w < Pow2(n) && k < n
    ensures Test(Pow2(n) - 1 - w, k) <==> !Test(w, k)
    decreases k
  {
    if k != 0 {
      TestComplement(n - 1, w / 2, k - 1);
      assert (Pow2(n) - 1 - w) / 2 == Pow2(n - 1) - 1 - w / 2;
    }
  }

  lemma TestNot(w: slot, k: nat)
    requires k < 64
    ensures Test(Not(w), k) <==> !Test(w, k)
  {
    Pow64();
    TestComplement(64, w, k);
  }

  lemma TestOr(v: slot, w: slot, k: nat)
    requires k < 64
    ensures Test(Or(v, w), k) <==> Test(v, k) || Test(w, k)
  {
    TestNot(v, k);
    TestNot(w, k);
    TestAnd(Not(v), Not(w), k);
    TestNot(And(Not(v), Not(w)), k);
  }

  lemma {:induction false} TestTop(n: nat, w: nat, k: nat)
    requires Pow2(n) <= w && k < n
    ensures Test(w - Pow2(n), k) <==> Test(w, k)
    decreases k
  {
    if k != 0 {
      TestTop(n - 1, w / 2, k - 1);
      assert (w - Pow2(n)) / 2 == w / 2 - Pow2(n - 1);
    }
  }

  lemma TestDouble(w: slot, k: nat)
    requires k < 64
    ensures Test((2 * w) % 0x1_0000_0000_0000_0000, k) <==> k != 0 && Test(w, k - 1)
  {
    Pow64();
    var d := (2 * w) % 0x1_0000_0000_0000_0000;
    if k != 0 && Pow2(63) <= w {
      assert d == 2 * (w - Pow2(63));
      assert d / 2 == w - Pow2(63);
      TestTop(63, w, k - 1);
    }
  }

  lemma {:induction false} TestShl(w: slot, n: nat, k: nat)
    requires k < 64
    ensures Test(Shl(w, n), k) <==> n <= k && Test(w, k - n)
    decreases n
  {
    if n != 0 {
      TestDouble(Shl(w, n - 1), k);
      if k != 0 {
        TestShl(w, n - 1, k - 1);
      }
    }
  }

  lemma {:induction false} TestShr(w: slot, n: nat, k: nat)
    ensures Test(Shr(w, n), k) <==> Test(w, n + k)
    decreases n
  {
    if n != 0 {
      TestShr(w / 2, n - 1, k);
    }
  }

  lemma TestBit(k: nat, j: nat)
    requires j < 64
    ensures Test(Bit(k), j) <==> j == k
  {
    TestShl(1, k, j);
    if k < j {
      TestZero(j - k - 1);
    }
  }

  lemma TestSet(w: slot, k: nat, j: nat)
    requires k < 64 && j < 64
    ensures Test(Or(w, Bit(k)), j) <==> j == k || Test(w, j)
  {
    TestOr(w, Bit(k), j);
    TestBit(k, j);
  }

  lemma TestCleared(w: slot, k: nat, j: nat)
    requires k < 64 && j < 64
    ensures Test(And(w, Not(Bit(k))), j) <==> j != k && Test(w, j)
  {
    TestAnd(w, Not(Bit(k)), j);
    TestNot(Bit(k), j);
    TestBit(k, j);
  }

  lemma {:induction false} SameBitsBelow(n: nat, v: nat, w: nat)
    requires v < Pow2(n) && w < Pow2(n) && forall j :: 0 <= j < n ==> (Test(v, j) <==> Test(w, j))
    ensures v == w
    decreases n
  {
    if n != 0 {
      forall j | 0 <= j < n - 1 ensures Test(v / 2, j) <==> Test(w / 2, j) {
        assert Test(v, j + 1) <==> Test(w, j + 1);
      }
      SameBitsBelow(n - 1, v / 2, w / 2);
      assert Test(v, 0) <==> Test(w, 0);
    }
  }

  /** A slot is determined by its bits. */
  lemma SameBits(v: slot, w: slot)
    requires forall j :: 0 <= j < 64 ==> (Test(v, j) <==> Test(w, j))
    ensures v == w
  {
    Pow64();
    SameBitsBelow(64, v, w);
  }

  lemma TestConstants(j: nat)
    requires j < 64
    ensures Test(AllSet, j) && !Test(AllClear, j)
  {
    TestZero(j);
    TestNot(AllClear, j);
  }

  lemma OnlyClear(w: slot)
    requires NoBits(w)
    ensures w == AllClear
  {
    forall j | 0 <= j < 64 ensures Test(w, j) <==> Test(AllClear, j) {
      TestConstants(j);
    }
    SameBits(w, AllClear);
  }

  lemma OnlySet(w: slot)
    requires EveryBit(w)
    ensures w == AllSet
  {
    forall j | 0 <= j < 64 ensures Test(w, j) <==> Test(AllSet, j) {
      TestConstants(j);
    }
    SameBits(w, AllSet);
  }

  /** No bit of the slot is set. */
  ghost predicate NoBits(w: slot) {
    forall j :: 0 <= j < 64 ==> !Test(w, j)
  }

  ghost predicate EveryBit(w: slot) {
    forall j :: 0 <= j < 64 ==> Test(w, j)
  }

  /** The word comparisons of the fast paths, in terms of bits. */
  lemma WholeSlot(w: slot)
    ensures w == AllClear <==> NoBits(w)
    ensures w == AllSet <==> EveryBit(w)
  {
    if w == AllClear {
      forall j | 0 <= j < 64 ensures !Test(w, j) { TestConstants(j); }
    }
    if w == AllSet {
      forall j | 0 <= j < 64 ensures Test(w, j) { TestConstants(j); }
    }
    if NoBits(w) {
      OnlyClear(w);
    }
    if EveryBit(w) {
      OnlySet(w);
    }
  }

  /** The mask test `(w & bit) == 0`. */
  lemma MaskTest(w: slot, k: nat)
    requires k < 64
    ensures And(w, Bit(k)) == 0 <==> !Test(w, k)
  {
    forall j | 0 <= j < 64 ensures Test(And(w, Bit(k)), j) <==> j == k && Test(w, j) {
      TestAnd(w, Bit(k), j);
      TestBit(k, j);
    }
    WholeSlot(And(w, Bit(k)));
  }

  /** Moving a one-bit mask down within the slot. */
  lemma BitDown(k: nat)
    requires 0 < k < 64
    ensures Bit(k) / 2 == Bit(k - 1)
  {
    var b := Bit(k);
    forall j | 0 <= j < 64 ensures Test(b / 2, j) <==> Test(Bit(k - 1), j) {
      TestBit(k - 1, j);
      assert Test(b, j + 1) <==> Test(b / 2, j);
      if j < 63 {
        TestBit(k, j + 1);
      } else {
        NoHighBit(b);
      }
    }
    SameBits(b / 2, Bit(k - 1));
  }

  lemma BitUp(k: nat)
    ensures Shl(Bit(k), 1) == Bit(k + 1)
  {
    assert Shl(Bit(k), 0) == Bit(k);
  }

  lemma NoHighBit(w: slot)
    ensures !Test(w, 64)
  {
    TestShr(w, 64, 0);
    Pow64();
    ShrAll(64, w);
  }

  lemma {:induction false} ShrAll(n: nat, w: slot)
    requires w < Pow2(n)
    ensures Shr(w, n) == 0
    decreases n
  {
    if n != 0 {
      ShrAll(n - 1, w / 2);
    }
  }

  /** The two-bit entry `k` of a slot of the first level. */
  function Entry(w: slot, k: nat): slot {
    Shr(w, 2 * k) % 4
  }

  /** `w & ~(3 << 2k) | v << 2k`. */
  function PutEntry(w: slot, k: nat, v: slot): slot {
    Or(And(w, Not(Shl(3, 2 * k))), Shl(v, 2 * k))
  }

  lemma EntryBits(w: slot, k: nat)
    requires k < 32
    ensures Test(w, 2 * k) <==> Entry(w, k) % 2 == 1
    ensures Test(w, 2 * k + 1) <==> Entry(w, k) / 2 == 1
  {
    TestShr(w, 2 * k, 0);
    TestShr(w, 2 * k, 1);
    LowTwo(Shr(w, 2 * k));
  }

  lemma LowTwo(s: nat)
    ensures Test(s, 0) <==> s % 4 % 2 == 1
    ensures Test(s, 1) <==> s % 4 / 2 == 1
  {
    var q, r := s / 4, s % 4;
    assert s == 4 * q + r;
    assert s / 2 == 2 * q + r / 2;
    assert Test(s, 1) <==> Test(s / 2, 0);
  }

  lemma EntryZero(k: nat)
    requires k < 32
    ensures Entry(AllClear, k) == 0
  {
    EntryBits(AllClear, k);
    TestConstants(2 * k);
    TestConstants(2 * k + 1);
    TwoBits(Entry(AllClear, k), 0);
  }

  lemma SmallBits(v: slot, j: nat)
    requires v < 4
    ensures Test(v, j) <==> (j == 0 && v % 2 == 1) || (j == 1 && v / 2 == 1)
  {
    if 2 <= j {
      assert v / 2 / 2 == 0;
      TestZero(j - 2);
    } else if j == 1 {
      assert Test(v, 1) <==> Test(v / 2, 0);
    }
  }

  lemma PutBits(w: slot, k: nat, v: slot, j: nat)
    requires k < 32 && v < 4 && j < 64
    ensures Test(PutEntry(w, k, v), j) <==>
              if j == 2 * k then v % 2 == 1 else if j == 2 * k + 1 then v / 2 == 1 else Test(w, j)
  {
    var m, x := Shl(3, 2 * k), Shl(v, 2 * k);
    TestShl(3, 2 * k, j);
    TestShl(v, 2 * k, j);
    if 2 * k <= j {
      SmallBits(3, j - 2 * k);
      SmallBits(v, j - 2 * k);
    }
    TestOr(And(w, Not(m)), x, j);
    TestAnd(w, Not(m), j);
    TestNot(m, j);
  }

  /** Writing an entry changes that entry alone. */
  lemma EntryPut(w: slot, k: nat, v: slot, j: nat)
    requires k < 32 && j < 32 && v < 4
    ensures Entry(PutEntry(w, k, v), j) == if j == k then v else Entry(w, j)
  {
    var e := if j == k then v else Entry(w, j);
    EntryBits(PutEntry(w, k, v), j);
    EntryBits(w, j);
    PutBits(w, k, v, 2 * j);
    PutBits(w, k, v, 2 * j + 1);
    TwoBits(Entry(PutEntry(w, k, v), j), e);
  }

  lemma TwoBits(v: slot, w: slot)
    requires v < 4 && w < 4 && (v % 2 == 1 <==> w % 2 == 1) && (v / 2 == 1 <==> w / 2 == 1)
    ensures v == w
  {
  }

  /** A slot is determined by its entries. */
  lemma SameEntries(v: slot, w: slot)
    requires forall k :: 0 <= k < 32 ==> Entry(v, k) == Entry(w, k)
    ensures v == w
  {
    forall j | 0 <= j < 64 ensures Test(v, j) <==> Test(w, j) {
      EntryBits(v, j / 2);
      EntryBits(w, j / 2);
      assert j == 2 * (j / 2) || j == 2 * (j / 2) + 1;
    }
    SameBits(v, w);
  }

  // `p2align` and `isp2` of `common/intarith.h`.

  lemma ModDouble(x: nat, m: nat)
    requires 0 < m
    ensures x % (2 * m) == 2 * (x / 2 % m) + x % 2
  {
    var h := x / 2;
    DivMod(h, m);
    assert x == h / m * (2 * m) + (2 * (h % m) + x % 2) by {
      assert h / m * (2 * m) == 2 * (h / m * m);
    }
    DivUnique(x, 2 * m, h / m, 2 * (h % m) + x % 2);
  }

  lemma {:induction false} AndOnes(n: nat, x: nat)
    requires x < Pow2(n)
    ensures And(x, Pow2(n) - 1) == x
    decreases n
  {
    if n != 0 && x != 0 {
      AndOnes(n - 1, x / 2);
      assert (Pow2(n) - 1) / 2 == Pow2(n - 1) - 1;
    }
  }

  lemma {:induction false} PowMono(k: nat, n: nat)
    requires k <= n
    ensures Pow2(k) <= Pow2(n)
    decreases n
  {
    if k < n {
      PowMono(k, n - 1);
    }
  }

  /** `x` with its `k` low bits cleared. */
  ghost function LowCleared(x: nat, k: nat): nat {
    if k == 0 then x else 2 * LowCleared(x / 2, k - 1)
  }

  lemma {:induction false} MaskClearsLow(n: nat, k: nat, x: nat)
    requires k <= n && x < Pow2(n)
    ensures Pow2(k) <= Pow2(n) && And(x, Pow2(n) - Pow2(k)) == LowCleared(x, k)
    decreases k
  {
    PowMono(k, n);
    if k == 0 {
      AndOnes(n, x);
    } else {
      MaskClearsLow(n - 1, k - 1, x / 2);
      AndEven(x, Pow2(n - 1) - Pow2(k - 1));
    }
  }

  lemma {:induction false} ClearingAligns(x: nat, k: nat)
    ensures LowCleared(x, k) == P2Align(x, Pow2(k))
    decreases k
  {
    if k == 0 {
      AlignOne(x);
    } else {
      ClearingAligns(x / 2, k - 1);
      AlignDouble(x, Pow2(k - 1));
    }
  }

  /** Masking with the two's complement of a power of two rounds down to its multiple. */
  lemma MaskRoundsDown(n: nat, k: nat, x: nat)
    requires k <= n && x < Pow2(n)
    ensures Pow2(k) <= Pow2(n) && And(x, Pow2(n) - Pow2(k)) == P2Align(x, Pow2(k))
  {
    MaskClearsLow(n, k, x);
    ClearingAligns(x, k);
  }

  lemma AlignOne(x: nat)
    ensures P2Align(x, 1) == x
  {
  }

  lemma AlignDouble(x: nat, m: nat)
    requires 0 < m
    ensures P2Align(x, 2 * m) == 2 * P2Align(x / 2, m)
  {
    ModDouble(x, m);
  }

  lemma AndEven(x: nat, m: nat)
    ensures And(x, 2 * m) == 2 * And(x / 2, m)
  {
    assert 2 * m % 2 == 0 && 2 * m / 2 == m;
  }

  /** `isp2`: the bit test picks out exactly the powers of two. */
  lemma {:induction false} IsPowerOfTwo(x: nat)
    requires 0 < x
    ensures And(x, x - 1) == 0 <==> exists k: nat :: x == Pow2(k)
  {
    if x == 1 {
      assert x == Pow2(0);
    } else if x % 2 == 0 {
      IsPowerOfTwo(x / 2);
      assert (x - 1) / 2 == x / 2 - 1;
      assert And(x, x - 1) == 2 * And(x / 2, x / 2 - 1);
      PowerHalf(x);
    } else {
      OddAnd(x);
      forall k: nat ensures x != Pow2(k) {
        PowerIsEven(k);
      }
    }
  }

  lemma PowerHalf(x: nat)
    requires 1 < x && x % 2 == 0
    ensures (exists k: nat :: x == Pow2(k)) <==> (exists k: nat :: x / 2 == Pow2(k))
  {
    if k: nat :| x / 2 == Pow2(k) {
      assert x == Pow2(k + 1);
    }
    if k: nat :| x == Pow2(k) {
      PowerIsEven(k);
      assert x / 2 == Pow2(k - 1);
    }
  }

  lemma PowerIsEven(k: nat)
    ensures if k == 0 then Pow2(k) == 1 else Pow2(k) % 2 == 0 && Pow2(k) / 2 == Pow2(k - 1)
  {
    if k != 0 {
      HalfDouble(Pow2(k - 1));
    }
  }

  lemma HalfDouble(m: nat)
    ensures 2 * m % 2 == 0 && 2 * m / 2 == m
  {
  }

  lemma OddAnd(x: nat)
    requires 1 < x && x % 2 == 1
    ensures And(x, x - 1) != 0
  {
    assert (x - 1) / 2 == x / 2 && 0 < x / 2 && (x - 1) % 2 == 0;
    AndSelf(x / 2);
    assert And(x, x - 1) == 2 * And(x / 2, x / 2);
  }

  lemma {:induction false} AndSelf(x: nat)
    ensures And(x, x) == x
  {
    if x != 0 {
      AndSelf(x / 2);
    }
  }

  /** `-w` in 64 bits. */
  function Neg(w: slot): slot {
    (0x1_0000_0000_0000_0000 - w) % 0x1_0000_0000_0000_0000
  }

  lemma AlignUnique(y: nat, m: nat, a: nat)
    requires 0 < m && a % m == 0 && a <= y < a + m
    ensures P2Align(y, m) == a
  {
    DivMod(a, m);
    DivUnique(y, m, a / m, y - a);
  }

  lemma {:induction false} PowDivides(k: nat, n: nat)
    requires k <= n
    ensures Pow2(n) % Pow2(k) == 0
    decreases n
  {
    if k == n {
      DivUnique(Pow2(n), Pow2(n), 1, 0);
    } else {
      PowDivides(k, n - 1);
      MultipleSum(Pow2(n - 1), Pow2(n - 1), Pow2(k));
    }
  }

  /** Rounding up is rounding down from the other side of a common multiple. */
  lemma AlignMirrored(x: nat, m: nat, top: nat)
    requires 0 < m && top % m == 0 && 0 < x <= top
    ensures P2RoundUp(x, m) <= top && P2Align(top - x, m) == top - P2RoundUp(x, m)
  {
    var r := P2RoundUp(x, m);
    MultipleSum(r, top, m);
    if top < r {
      MultipleAtLeast(r - top, m);
    }
    MultipleSum(top, r, m);
    AlignUnique(top - x, m, top - r);
  }

  /** `p2roundup` as the source writes it, `-(-x & -align)`, rounds up to a multiple, modulo 2^64. */
  lemma RoundsUpByMask(x: slot, k: nat)
    requires k < 64
    ensures Pow2(k) < 0x1_0000_0000_0000_0000
    ensures Neg(And(Neg(x), Neg(Pow2(k)))) == P2RoundUp(x, Pow2(k)) % 0x1_0000_0000_0000_0000
  {
    Pow64();
    PowMono(k, 63);
    PowDivides(k, 64);
    NegIs(x);
    NegIs(Pow2(k));
    if x == 0 {
      RoundUpZero(Pow2(k));
    } else {
      MaskRoundsDown(64, k, Pow2(64) - x);
      AlignMirrored(x, Pow2(k), Pow2(64));
      NegBack(P2RoundUp(x, Pow2(k)));
    }
  }

  lemma NegIs(w: slot)
    ensures Neg(w) == if w == 0 then 0 else 0x1_0000_0000_0000_0000 - w
  {
  }

  lemma NegBack(r: nat)
    requires 0 < r <= 0x1_0000_0000_0000_0000
    ensures Neg(0x1_0000_0000_0000_0000 - r) == r % 0x1_0000_0000_0000_0000
  {
  }

  lemma RoundUpZero(m: nat)
    requires 0 < m
    ensures P2RoundUp(0, m) == 0
  {
    DivUnique(0, m, 0, 0);
  }

  // Packing fields: masks, shifts and disjoint unions.

  /** And, one bit at a time. */
  lemma AndBits(v: nat, i: nat, w: nat, j: nat)
    requires i < 2 && j < 2
    ensures And(2 * v + i, 2 * w + j) == 2 * And(v, w) + if i == 1 && j == 1 then 1 else 0
  {
    OneBit(v, i);
    OneBit(w, j);
  }

  lemma OneBit(v: nat, i: nat)
    requires i < 2
    ensures (2 * v + i) / 2 == v && (2 * v + i) % 2 == i
  {
  }

  /** A low mask is a remainder. */
  lemma {:induction false} AndLow(x: nat, n: nat)
    ensures And(x, Pow2(n) - 1) == x % Pow2(n)
    decreases n
  {
    if n != 0 {
      var h, i, m := x / 2, x % 2, Pow2(n - 1);
      AndLow(h, n - 1);
      ModDouble(x, m);
      LowStep(h, i, m, h % m);
      assert x == 2 * h + i;
    }
  }

  lemma LowStep(h: nat, i: nat, m: nat, r: nat)
    requires 0 < m && i < 2 && And(h, m - 1) == r
    ensures And(2 * h + i, 2 * m - 1) == 2 * r + i
  {
    AndBits(h, i, m - 1, 1);
  }

  /** `w` doubled `n` times, without a bound. */
  function Up(w: nat, n: nat): nat {
    if n == 0 then w else 2 * Up(w, n - 1)
  }

  lemma {:induction false} ShlIsUp(w: slot, n: nat)
    requires Up(w, n) < 0x1_0000_0000_0000_0000
    ensures Shl(w, n) == Up(w, n)
  {
    if n != 0 {
      ShlIsUp(w, n - 1);
    }
  }

  lemma UpSix(w: nat, n: nat)
    ensures Up(w, n + 6) == 64 * Up(w, n) && Pow2(n + 6) == 64 * Pow2(n)
  {
    assert Up(w, n + 2) == 4 * Up(w, n) && Up(w, n + 4) == 4 * Up(w, n + 2);
    assert Pow2(n + 2) == 4 * Pow2(n) && Pow2(n + 4) == 4 * Pow2(n + 2);
  }

  lemma {:induction false} LowIsDisjoint(lo: nat, hi: nat, n: nat)
    requires lo < Pow2(n)
    ensures And(lo, Up(hi, n)) == 0
    decreases n
  {
    if n != 0 {
      LowIsDisjoint(lo / 2, hi, n - 1);
      AndEven(lo, Up(hi, n - 1));
    }
  }

  /** Complement, and, complement: the sum of the words. */
  ghost predicate SumByComplement(m: nat, v: nat, w: nat) {
    v < m && w < m && m - 1 - And(m - 1 - v, m - 1 - w) == v + w
  }

  lemma {:induction false} ComplementSum(n: nat, v: nat, w: nat)
    requires v < Pow2(n) && w < Pow2(n) && And(v, w) == 0
    ensures SumByComplement(Pow2(n), v, w)
    decreases n
  {
    if n != 0 {
      var v1, i, w1, j := v / 2, v % 2, w / 2, w % 2;
      assert v == 2 * v1 + i && w == 2 * w1 + j;
      DisjointBits(v1, i, w1, j);
      ComplementSum(n - 1, v1, w1);
      ComplementStep(Pow2(n - 1), v1, i, w1, j);
    }
  }

  lemma DisjointBits(v: nat, i: nat, w: nat, j: nat)
    requires i < 2 && j < 2 && And(2 * v + i, 2 * w + j) == 0
    ensures And(v, w) == 0 && i + j < 2
  {
    AndBits(v, i, w, j);
  }

  lemma ComplementStep(m: nat, v: nat, i: nat, w: nat, j: nat)
    requires i < 2 && j < 2 && i + j < 2 && SumByComplement(m, v, w)
    ensures SumByComplement(2 * m, 2 * v + i, 2 * w + j)
  {
    var c, d := m - 1 - v, m - 1 - w;
    AndBits(c, 1 - i, d, 1 - j);
    assert 2 * m - 1 - (2 * v + i) == 2 * c + (1 - i);
    assert 2 * m - 1 - (2 * w + j) == 2 * d + (1 - j);
  }

  /** Or of disjoint words is their sum. */
  lemma OrIsSum(v: slot, w: slot)
    requires And(v, w) == 0
    ensures Or(v, w) == v + w
  {
    Pow64();
    ComplementSum(64, v, w);
  }

  /** A field put above the `n` low bits. */
  lemma OrField(lo: slot, hi: slot, n: nat)
    requires lo < Pow2(n) && Up(hi, n) < 0x1_0000_0000_0000_0000
    ensures Or(lo, Shl(hi, n)) == lo + Up(hi, n)
  {
    ShlIsUp(hi, n);
    LowIsDisjoint(lo, hi, n);
    OrIsSum(lo, Up(hi, n));
  }
}
