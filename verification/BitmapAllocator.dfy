/**
 The hierarchical bitmap allocator (`blk/bitmap_allocator.h` and `.cc`): marking
 ranges free, claiming the free run beside an offset, and keeping the two summary
 levels and the counters exact.
 */
module BitmapAllocator {
  import opened Slot
  import opened BitmapLevels
  import opened BitmapUnits
  import opened IntArith
  import opened Ranges

  /** Level 1 agrees with level 0 outside the entries `lo..hi`. */
  ghost predicate L1ExactOutside(l0: seq<slot>, l1: seq<slot>, lo: nat, hi: nat) {
    && |l0| == 256 * |l1|
    && forall e :: 0 <= e < 32 * |l1| && !(lo <= e < hi) ==> EntryAt(l1, e) == Summary(l0, e)
  }

  /** The units outside `lo..hi` are as they were. */
  ghost predicate SameOutside(l0: seq<slot>, l0': seq<slot>, lo: nat, hi: nat) {
    |l0'| == |l0| && forall u :: 0 <= u < 64 * |l0| && !(lo <= u < hi) ==> (Free(l0', u) <==> Free(l0, u))
  }

  /** Changing the units `lo..hi` leaves the entries that do not meet them exact. */
  lemma StillExactOutside(l0: seq<slot>, l0': seq<slot>, l1: seq<slot>, lo: nat, hi: nat)
    requires L1Exact(l0, l1) && SameOutside(l0, l0', lo, hi)
    ensures L1ExactOutside(l0', l1, lo / 512, Ceil(hi, 512))
  {
    forall e | 0 <= e < 32 * |l1| && !(lo / 512 <= e < Ceil(hi, 512)) ensures EntryAt(l1, e) == Summary(l0', e) {
      assert EntryAt(l1, e) == Summary(l0, e);
      SummaryElsewhere(l0, l0', e);
    }
  }

  /** Which bits of level 2 hold: those of `l2`, with `lo..hi` set to what level 0 says. */
  ghost predicate L2Refreshed(l0: seq<slot>, l2: seq<slot>, l2': seq<slot>, lo: nat, hi: nat, groups: nat) {
    && |l2'| == |l2| && groups <= 64 * |l2| && |l0| == 2048 * groups && hi <= groups
    && forall p :: 0 <= p < 64 * |l2| ==>
         (L2Bit(l2', p) <==> if lo <= p < hi then GroupFree(l0, p) else L2Bit(l2, p))
  }

  lemma GroupElsewhere(l0: seq<slot>, l0': seq<slot>, p: nat)
    requires |l0'| == |l0| && 131072 * p + 131072 <= 64 * |l0|
    requires forall u :: 131072 * p <= u < 131072 * p + 131072 ==> (Free(l0', u) <==> Free(l0, u))
    ensures GroupFree(l0', p) <==> GroupFree(l0, p)
  {
  }

  /** Claiming units and refreshing every group they meet keeps level 2 exact. */
  lemma L2AfterClaim(l0: seq<slot>, l0': seq<slot>, l2: seq<slot>, l2': seq<slot>,
                     lo: nat, hi: nat, from: nat, to: nat, groups: nat)
    requires L2Exact(l0, l2, groups) && Claimed(l0, l0', lo, hi)
    requires L2Refreshed(l0', l2, l2', from, to, groups) && from <= lo / 131072 && Ceil(hi, 131072) <= to
    ensures L2Exact(l0', l2', groups)
  {
    forall p | 0 <= p < 64 * |l2| ensures L2Bit(l2', p) <==> p < groups && GroupFree(l0', p) {
      if p < groups && !(from <= p < to) {
        GroupElsewhere(l0, l0', p);
      }
    }
  }

  /** Freeing units and setting the bit of every group they meet keeps level 2 exact. */
  lemma L2AfterFree(l0: seq<slot>, l0': seq<slot>, l2: seq<slot>, l2': seq<slot>, lo: nat, hi: nat, groups: nat)
    requires L2Exact(l0, l2, groups) && Freed(l0, l0', lo, hi) && lo < hi <= 64 * |l0|
    requires Freed(l2, l2', lo / 131072, Ceil(hi, 131072))
    ensures L2Exact(l0', l2', groups)
  {
    forall p | 0 <= p < 64 * |l2| ensures L2Bit(l2', p) <==> p < groups && GroupFree(l0', p) {
      assert L2Bit(l2', p) == Free(l2', p) && L2Bit(l2, p) == Free(l2, p);
      if lo / 131072 <= p < Ceil(hi, 131072) {
        var u := if lo < 131072 * p then 131072 * p else lo;
        assert 131072 * p <= u < 131072 * p + 131072 && Free(l0', u);
      } else if p < groups {
        GroupElsewhere(l0, l0', p);
      }
    }
  }

  class Bitmap {
    const granularity: nat
    const l2Granularity: nat
    const groups: nat
    const l2Slots: nat
    var l0: seq<slot>
    var l1: seq<slot>
    var l2: seq<slot>
    var partialCount: nat
    var unallocCount: nat
    var available: nat

    /** The sizes of the levels. */
    ghost predicate Shape()
      reads this
    {
      && 0 < granularity && l2Granularity == 131072 * granularity
      && |l0| == 2048 * groups && |l1| == 8 * groups && groups <= 64 * |l2| && |l2| == l2Slots
    }

    /** Both summary levels and the level 1 counters say exactly what level 0 does. */
    ghost predicate Levels()
      reads this
    {
      && Shape() && L1Exact(l0, l1) && Counted(l1, partialCount, unallocCount) && L2Exact(l0, l2, groups)
    }

    /** The bytes the levels describe. */
    ghost function Extent(): nat
      reads this
    {
      Times(64 * |l0|, granularity)
    }

    /** The levels are exact and `available` is the free bytes. */
    ghost predicate Valid()
      reads this
    {
      && Levels() && Extent() < 0x8000_0000_0000_0000
      && available == FreeBytes(l0, granularity)
    }

    /** `_init` of an empty allocator: the levels cover the capacity rounded up to whole groups. */
    constructor (capacity: nat, unit: nat)
      requires 0 < unit && Times(Reach(capacity, 131072 * unit), 131072 * unit) < 0x8000_0000_0000_0000
      ensures Valid() && available == 0 && granularity == unit && NoneFree(l0, 0, 64 * |l0|)
      ensures capacity <= Extent() < capacity + 131072 * unit
    {
      var aligned := Times(Reach(capacity, 131072 * unit), 131072 * unit);
      var n := Reach(capacity, 131072 * unit);
      granularity, l2Granularity, groups := unit, 131072 * unit, n;
      l1 := seq(Whole(aligned, 512 * unit) / 32, _ => AllClear);
      l0 := seq(Whole(aligned, unit) / 64, _ => AllClear);
      l2 := seq(Reach(capacity, 64 * (131072 * unit)), _ => AllClear);
      l2Slots := Reach(capacity, 64 * (131072 * unit));
      partialCount, unallocCount, available := 0, 0, 0;
      new;
      SlotCounts(n, unit);
      GroupSlots(capacity, 131072 * unit);
      ClearLevels(l0, l1, l2, groups);
      Bounds(capacity, 131072 * unit);
      ghost var clear0, clear1 := l0, l1;
      MarkAllocL1L0(Reach(capacity, unit), Whole(aligned, unit));
      StillClear(clear0, clear1, l0, l1);
      partialCount, unallocCount := 0, 0;
    }

    /** `_mark_alloc_l1_l0`. */
    method MarkAllocL1L0(start: nat, end: nat)
      requires end <= 64 * |l0| && L1Exact(l0, l1) && Counted(l1, partialCount, unallocCount)
      modifies `l0, `l1, `partialCount, `unallocCount
      ensures Claimed(old(l0), l0, start, end) && |l1| == |old(l1)|
      ensures L1Exact(l0, l1) && Counted(l1, partialCount, unallocCount)
    {
      MarkAllocL0(start, end);
      RefreshUnits(start, end, old(l0));
    }

    /** `_mark_alloc_l0`: single bits up to a slot boundary, whole slots, single bits again. */
    method MarkAllocL0(start: nat, end: nat)
      requires end <= 64 * |l0|
      modifies `l0
      ensures Claimed(old(l0), l0, start, end)
    {
      var p := start;
      while p < end && p % 64 != 0
        invariant start <= p && (p <= end || p == start) && Claimed(old(l0), l0, start, p)
      {
        ClaimNextUnit(old(l0), l0, start, p);
        l0 := l0[p / 64 := And(l0[p / 64], Not(Bit(p % 64)))];
        p := p + 1;
      }
      while p + 64 <= end
        invariant start <= p && (p <= end || p == start) && Claimed(old(l0), l0, start, p)
        invariant p < end ==> p % 64 == 0
      {
        ClaimNextWord(old(l0), l0, start, p / 64);
        l0 := l0[p / 64 := AllClear];
        p := p + 64;
      }
      while p < end
        invariant start <= p && (p <= end || p == start) && Claimed(old(l0), l0, start, p)
      {
        ClaimNextUnit(old(l0), l0, start, p);
        l0 := l0[p / 64 := And(l0[p / 64], Not(Bit(p % 64)))];
        p := p + 1;
      }
    }

    /** `_mark_free_l0`. */
    method MarkFreeL0(start: nat, end: nat)
      requires end <= 64 * |l0|
      modifies `l0
      ensures Freed(old(l0), l0, start, end)
    {
      var p := start;
      while p < end && p % 64 != 0
        invariant start <= p && (p <= end || p == start) && Freed(old(l0), l0, start, p)
      {
        FreeNextUnit(old(l0), l0, start, p);
        l0 := l0[p / 64 := Or(l0[p / 64], Bit(p % 64))];
        p := p + 1;
      }
      while p + 64 <= end
        invariant start <= p && (p <= end || p == start) && Freed(old(l0), l0, start, p)
        invariant p < end ==> p % 64 == 0
      {
        FreeNextWord(old(l0), l0, start, p / 64);
        l0 := l0[p / 64 := AllSet];
        p := p + 64;
      }
      while p < end
        invariant start <= p && (p <= end || p == start) && Freed(old(l0), l0, start, p)
      {
        FreeNextUnit(old(l0), l0, start, p);
        l0 := l0[p / 64 := Or(l0[p / 64], Bit(p % 64))];
        p := p + 1;
      }
    }

    /** The aggregates over the eight slots of an entry, turned into its value. */
    method Summarise(e: nat) returns (v: slot)
      requires 8 * e + 8 <= |l0|
      ensures v == Summary(l0, e)
    {
      var aggAnd: slot, aggOr: slot := AllSet, AllClear;
      var i := 0;
      while i < 8
        invariant 0 <= i <= 8
        invariant aggAnd == AllSet <==> AllFree(l0, 512 * e, 512 * e + 64 * i)
        invariant aggOr == AllClear <==> NoneFree(l0, 512 * e, 512 * e + 64 * i)
      {
        var w := l0[e * 8 + i];
        AggregateStep(aggAnd, w);
        AggregateStep(aggOr, w);
        WordUnits(l0, e * 8 + i);
        Extend(l0, 512 * e, 512 * e + 64 * i, 512 * e + 64 * i + 64);
        aggAnd := And(aggAnd, w);
        aggOr := Or(aggOr, w);
        i := i + 1;
      }
      v := if aggOr == AllClear then Full else if aggAnd == AllSet then Unallocated else Partial;
    }

    /** One round of `_mark_l1_on_l0`: rewrite entry `e` and move the counters. */
    method RefreshEntry(e: nat)
      requires |l0| == 256 * |l1| && e < 32 * |l1| && Counted(l1, partialCount, unallocCount)
      modifies `l1, `partialCount, `unallocCount
      ensures |l1| == |old(l1)| && Counted(l1, partialCount, unallocCount)
      ensures forall f :: 0 <= f < 32 * |l1| ==> EntryAt(l1, f) == if f == e then Summary(l0, e) else EntryAt(old(l1), f)
    {
      var was := EntryAt(l1, e);
      var next := Summarise(e);
      if was == next {
        return;
      }
      CountPut(l1, e, next, Partial);
      CountPut(l1, e, next, Unallocated);
      if was == Partial {
        partialCount := partialCount - 1;
      } else if was == Unallocated {
        unallocCount := unallocCount - 1;
      }
      if next == Partial {
        partialCount := partialCount + 1;
      } else if next == Unallocated {
        unallocCount := unallocCount + 1;
      }
      forall f | 0 <= f < 32 * |l1| ensures EntryAt(PutAt(l1, e, next), f) == if f == e then next else EntryAt(l1, f) {
        PutAtEntry(l1, e, next, f);
      }
      l1 := PutAt(l1, e, next);
    }

    /** `_mark_l1_on_l0`: refresh every entry that meets the units. */
    method MarkL1OnL0(start: nat, end: nat)
      requires end <= 64 * |l0| && Counted(l1, partialCount, unallocCount)
      requires L1ExactOutside(l0, l1, start / 512, Ceil(end, 512))
      modifies `l1, `partialCount, `unallocCount
      ensures |l1| == |old(l1)| && Counted(l1, partialCount, unallocCount) && L1Exact(l0, l1)
    {
      var e, to := P2Align(start, 512) / 512, P2RoundUp(end, 512) / 512;
      RoundUpDiv(end, 512);
      while e < to
        invariant start / 512 <= e && |l1| == |old(l1)| && Counted(l1, partialCount, unallocCount)
        invariant L1ExactOutside(l0, l1, e, to)
      {
        RefreshEntry(e);
        e := e + 1;
      }
    }

    /** `_mark_l1_on_l0` as its callers use it, with the bounds rounded to whole entries. */
    method RefreshUnits(lo: nat, hi: nat, ghost was: seq<slot>)
      requires hi <= 64 * |l0| && Counted(l1, partialCount, unallocCount)
      requires L1Exact(was, l1) && SameOutside(was, l0, lo, hi)
      modifies `l1, `partialCount, `unallocCount
      ensures |l1| == |old(l1)| && Counted(l1, partialCount, unallocCount) && L1Exact(l0, l1)
    {
      StillExactOutside(was, l0, l1, lo, hi);
      Aligned512(lo, hi);
      WithinEntries(hi, |l1|);
      MarkL1OnL0(P2Align(lo, 512), P2RoundUp(hi, 512));
    }

    /** `_claim_free_to_left_l0` within one slot: clear bits downwards until one is clear already. */
    method ClearDown(i: nat, k: nat) returns (pos: int, stopped: bool)
      requires i < |l0| && k < 64
      modifies `l0
      ensures 64 * i - 1 <= pos <= 64 * i + k && Run(old(l0), l0, pos + 1, 64 * i + k + 1)
      ensures if stopped then 0 <= pos && !Free(old(l0), pos) else pos == 64 * i - 1
    {
      var bits := Bit(k);
      var last := 64 * i;
      pos := last + k;
      while last <= pos
        invariant last - 1 <= pos <= last + k && Run(old(l0), l0, pos + 1, last + k + 1)
        invariant last <= pos ==> bits == Bit(pos - last)
      {
        RunByUnit(old(l0), l0, pos + 1, last + k + 1, i, pos - last);
        if And(l0[i], bits) == 0 {
          return pos, true;
        }
        l0 := l0[i := And(l0[i], Not(bits))];
        if last < pos {
          BitDown(pos - last);
        }
        bits := bits / 2;
        pos := pos - 1;
      }
      stopped := false;
    }

    /** The part of `_claim_free_to_left_l0` that skips whole free slots. */
    method SkipDown(i0: int, ghost was: seq<slot>, ghost start: nat) returns (i: int)
      requires -1 <= i0 < |l0| && Run(was, l0, 64 * i0 + 64, start)
      modifies `l0
      ensures -1 <= i <= i0 && |l0| == |was| && Run(was, l0, 64 * i + 64, start)
      ensures 0 <= i ==> l0[i] != AllSet
    {
      i := i0;
      while 0 <= i && l0[i] == AllSet
        invariant -1 <= i <= i0 && |l0| == |was| && Run(was, l0, 64 * i + 64, start)
      {
        RunByWord(was, l0, 64 * i + 64, start, i);
        l0 := l0[i := AllClear];
        i := i - 1;
      }
    }

    /** `_claim_free_to_left_l0`: claim the maximal free run that ends at `start`. */
    method ClaimLeftL0(start: nat) returns (first: nat)
      requires 0 < start <= 64 * |l0|
      modifies `l0
      ensures Run(old(l0), l0, first, start)
      ensures first == 0 || !Free(old(l0), first - 1)
    {
      var pos, stopped := ClearDown((start - 1) / 64, (start - 1) % 64);
      if stopped {
        return pos + 1;
      }
      var i := SkipDown((start - 1) / 64 - 1, old(l0), start);
      if i < 0 {
        return 0;
      }
      first := LastDown(i, old(l0), start);
    }

    /** The last slot of a claim to the left, which is not free throughout. */
    method LastDown(i: nat, ghost was: seq<slot>, ghost start: nat) returns (first: nat)
      requires i < |l0| && Run(was, l0, 64 * i + 64, start) && l0[i] != AllSet
      modifies `l0
      ensures Run(was, l0, first, start) && 0 < first && !Free(was, first - 1)
    {
      UntouchedWord(was, l0, 64 * i + 64, start, i);
      if l0[i] == AllClear {
        assert !Free(was, 64 * i + 63);
        return 64 * i + 64;
      }
      ghost var before := l0;
      var pos, stopped := ClearDown(i, 63);
      RunJoin(was, before, l0, pos + 1, 64 * i + 64, start);
      assert stopped;
      return pos + 1;
    }

    /** `_claim_free_to_right_l0` within one slot: clear bits upwards until one is clear already. */
    method ClearUp(i: nat, k: nat) returns (pos: nat, stopped: bool)
      requires i < |l0| && k < 64
      modifies `l0
      ensures 64 * i + k <= pos <= 64 * i + 64 && Run(old(l0), l0, 64 * i + k, pos)
      ensures if stopped then pos < 64 * i + 64 && !Free(old(l0), pos) else pos == 64 * i + 64
    {
      var bits := Bit(k);
      var end := 64 * i + 64;
      pos := 64 * i + k;
      while pos < end
        invariant 64 * i + k <= pos <= end && Run(old(l0), l0, 64 * i + k, pos)
        invariant bits == Bit(pos - 64 * i)
      {
        RunByUnit(old(l0), l0, 64 * i + k, pos, i, pos - 64 * i);
        if And(l0[i], bits) == 0 {
          return pos, true;
        }
        BitUp(pos - 64 * i);
        l0 := l0[i := And(l0[i], Not(bits))];
        bits := Shl(bits, 1);
        pos := pos + 1;
      }
      stopped := false;
    }

    /** The part of `_claim_free_to_right_l0` that skips whole free slots. */
    method SkipUp(i0: nat, ghost was: seq<slot>, ghost start: nat) returns (i: nat)
      requires i0 <= |l0| && Run(was, l0, start, 64 * i0)
      modifies `l0
      ensures i0 <= i <= |l0| && |l0| == |was| && Run(was, l0, start, 64 * i)
      ensures i < |l0| ==> l0[i] != AllSet
    {
      i := i0;
      while i < |l0| && l0[i] == AllSet
        invariant i0 <= i <= |l0| && |l0| == |was| && Run(was, l0, start, 64 * i)
      {
        RunByWord(was, l0, start, 64 * i, i);
        l0 := l0[i := AllClear];
        i := i + 1;
      }
    }

    /** `_claim_free_to_right_l0`: claim the maximal free run that begins at `start`. */
    method ClaimRightL0(start: nat) returns (end: nat)
      requires start <= 64 * |l0|
      modifies `l0
      ensures Run(old(l0), l0, start, end)
      ensures end == 64 * |l0| || !Free(old(l0), end)
    {
      if |l0| <= start / 64 {
        return start;
      }
      var pos, stopped := ClearUp(start / 64, start % 64);
      if stopped {
        return pos;
      }
      var i := SkipUp(start / 64 + 1, old(l0), start);
      if i == |l0| {
        return 64 * i;
      }
      end := LastUp(i, old(l0), start);
    }

    /** The last slot of a claim to the right, which is not free throughout. */
    method LastUp(i: nat, ghost was: seq<slot>, ghost start: nat) returns (end: nat)
      requires i < |l0| && Run(was, l0, start, 64 * i) && l0[i] != AllSet
      modifies `l0
      ensures Run(was, l0, start, end) && end < 64 * |was| && !Free(was, end)
    {
      UntouchedWord(was, l0, start, 64 * i, i);
      if l0[i] == AllClear {
        assert !Free(was, 64 * i);
        return 64 * i;
      }
      ghost var before := l0;
      var pos, stopped := ClearUp(i, 0);
      RunJoin(was, before, l0, start, 64 * i, pos);
      assert stopped;
      return pos;
    }

    /** `_mark_l2_free`. */
    method MarkL2Free(from: nat, to: nat)
      requires to <= 64 * |l2|
      modifies `l2
      ensures Freed(old(l2), l2, from, to)
    {
      var p := from;
      while p < to
        invariant from <= p && (p <= to || p == from) && Freed(old(l2), l2, from, p)
      {
        FreeNextUnit(old(l2), l2, from, p);
        l2 := l2[p / 64 := Or(l2[p / 64], Bit(p % 64))];
        p := p + 1;
      }
    }

    /** The inner loop of `_mark_l2_on_l1`. */
    method AnyEntry(p: nat) returns (free: bool)
      requires L1Exact(l0, l1) && 8 * p + 8 <= |l1|
      ensures free <==> GroupFree(l0, p)
    {
      GroupByEntries(l0, l1, p);
      free := false;
      var base, i := p * 32 * 8, 0;
      while i < 256
        invariant 0 <= i <= 256
        invariant forall e :: base <= e < base + i ==> EntryAt(l1, e) == Full
      {
        if Entry(l1[(base + i) / 32], (base + i) % 32) != 0 {
          assert EntryAt(l1, base + i) != Full;
          return true;
        }
        i := i + 1;
      }
    }

    /** `_mark_l2_on_l1`: recompute the bits of the groups `from..to`. */
    method MarkL2OnL1(from: nat, to: nat)
      requires Shape() && L1Exact(l0, l1) && from <= to <= groups
      modifies `l2
      ensures L2Refreshed(l0, old(l2), l2, from, to, groups)
    {
      var p := from;
      while p < to
        invariant from <= p <= to && L2Refreshed(l0, old(l2), l2, from, p, groups)
      {
        var free := AnyEntry(p);
        ghost var before := l2;
        if free {
          SetUnit(l2, p);
          l2 := l2[p / 64 := Or(l2[p / 64], Bit(p % 64))];
        } else {
          ClearUnit(l2, p);
          l2 := l2[p / 64 := And(l2[p / 64], Not(Bit(p % 64)))];
        }
        RefreshedMore(l0, old(l2), before, l2, from, p, groups);
        p := p + 1;
      }
    }

    /** `_free_l1` and `_mark_l2_free` of the bytes `offset..end`. */
    method FreeRange(offset: nat, end: nat)
      requires Levels() && Reach(end, granularity) <= 64 * |l0|
      modifies `l0, `l1, `l2, `partialCount, `unallocCount
      ensures Shape() && L1Exact(l0, l1) && Counted(l1, partialCount, unallocCount)
      ensures Freed(old(l0), l0, Whole(offset, granularity), Reach(end, granularity))
      ensures Whole(offset, granularity) < Reach(end, granularity) ==> L2Exact(l0, l2, groups)
      ensures Freed(old(l2), l2, Whole(offset, granularity) / 131072, Ceil(Reach(end, granularity), 131072))
    {
      var lo, hi := Whole(offset, granularity), Reach(end, granularity);
      MarkFreeL0(lo, hi);
      RefreshUnits(lo, hi, old(l0));
      Coarser(offset, granularity);
      Coarser(end, granularity);
      MarkL2Free(Whole(offset, l2Granularity), Reach(end, l2Granularity));
      if lo < hi {
        L2AfterFree(old(l0), l0, old(l2), l2, lo, hi, groups);
      }
    }

    /** `_mark_free`: the end and the new total are 64-bit sums. */
    method MarkFree(offset: nat, length: nat, ghost lo: nat, ghost hi: nat)
      requires Levels() && lo == Whole(offset, granularity)
      requires hi == Reach((offset + length) % TwoTo64, granularity) <= 64 * |l0|
      modifies `l0, `l1, `l2, `partialCount, `unallocCount, `available
      ensures Freed(old(l0), l0, lo, hi) && (lo < hi ==> Levels())
      ensures Freed(old(l2), l2, lo / 131072, Ceil(hi, 131072))
      ensures available == (old(available) + length) % TwoTo64
    {
      FreeRange(offset, (offset + length) % TwoTo64);
      available := (available + length) % TwoTo64;
    }

    /**
     `init_add_free`: free the whole units within the range.  The levels and the
     total stay exact if and only if the rounded start does not pass the end: if it
     does, the remaining length wraps around, `available` loses one unit, and level 2
     may gain the bit of a group with nothing free.
     */
    method InitAddFree(offset: nat, length: nat)
      requires Valid() && offset + length <= Extent() && (exists n: nat :: TwoTo64 == Times(n, granularity))
      requires Taken(l0, Reach(offset, granularity), Whole(offset + length, granularity))
      modifies `l0, `l1, `l2, `partialCount, `unallocCount, `available
      ensures Valid() <==> length == 0 || Times(Reach(offset, granularity), granularity) <= offset + length
      ensures Freed(old(l0), l0, Reach(offset, granularity), Whole(offset + length, granularity))
      ensures 0 < length && offset + length < Times(Reach(offset, granularity), granularity) ==>
                Freed(old(l2), l2, Reach(offset, granularity) / 131072, Ceil(Whole(offset + length, granularity), 131072))
    {
      if length == 0 {
        Bounds(offset, granularity);
        return;
      }
      var off, len := RoundInwards(offset, length, granularity, 64 * |l0|);
      if off <= offset + length {
        AddInner(off, len, Reach(offset, granularity), Whole(offset + length, granularity));
      } else {
        AddNothing(off, len, Whole(offset + length, granularity));
      }
    }

    /** The rest of `init_add_free` when the range holds the units `lo..hi`. */
    method AddInner(off: nat, len: nat, ghost lo: nat, ghost hi: nat)
      requires Valid() && Inward(off, len, granularity, lo, hi, 64 * |l0|)
      requires Taken(l0, lo, hi)
      modifies `l0, `l1, `l2, `partialCount, `unallocCount, `available
      ensures Valid() && Freed(old(l0), l0, lo, hi)
    {
      if len == 0 {
        return;
      }
      NoWrap(off, len, Extent());
      MarkFree(off, len, lo, hi);
      Freeing(old(l0), l0, lo, hi, granularity);
      NoWrap(old(available), len, Extent());
    }

    /** The rest of `init_add_free` when the length wrapped around: the total loses one unit that was never there. */
    method AddNothing(off: nat, len: nat, ghost hi: nat)
      requires Valid() && Wrapped(off, len, granularity, hi, 64 * |l0|)
      modifies `l0, `l1, `l2, `partialCount, `unallocCount, `available
      ensures !Valid() && Freed(old(l0), l0, hi + 1, hi)
      ensures Freed(old(l2), l2, (hi + 1) / 131072, Ceil(hi, 131072))
    {
      BeforeUnit(off, granularity, hi, 64 * |l0|);
      AtMostExtent(l0, granularity);
      Lost(available, granularity);
      MarkFree(off, len, hi + 1, hi);
      SameL0(old(l0), l0);
      assert available != FreeBytes(l0, granularity);
    }

    /** `claim_free_to_left_l1`: the free run that ends at `offs`, with level 1 refreshed. */
    method ClaimLeftL1(offs: nat) returns (r: nat, ghost first: nat)
      requires Valid() && 0 < Whole(offs, granularity) <= 64 * |l0|
      modifies `l0, `l1, `partialCount, `unallocCount
      ensures LeftRun(old(l0), l0, first, Whole(offs, granularity))
      ensures Claimed1(old(l0), first, Whole(offs, granularity), r)
    {
      var end := Whole(offs, granularity);
      var start := ClaimLeftL0(end);
      first := start;
      r := RefreshRun(start, end, old(l0));
    }

    /** The end of both claims on level 1: refresh the entries of a nonempty run and give its bytes. */
    method RefreshRun(start: nat, end: nat, ghost was: seq<slot>) returns (r: nat)
      requires Shape() && L1Exact(was, l1) && Counted(l1, partialCount, unallocCount) && Run(was, l0, start, end)
      modifies `l1, `partialCount, `unallocCount
      ensures Shape() && L1Exact(l0, l1) && Counted(l1, partialCount, unallocCount)
      ensures r == Times(end - start, granularity)
    {
      if start < end {
        RefreshUnits(start, end, was);
        r := Times(end - start, granularity);
      } else {
        SameL0(was, l0);
        r := 0;
      }
    }

    /** `claim_free_to_left`: take the maximal free run that ends at the unit of `offset`. */
    method ClaimLeft(offset: nat) returns (r: nat, ghost first: nat)
      requires Valid() && granularity <= offset <= Extent()
      modifies `l0, `l1, `l2, `partialCount, `unallocCount, `available
      ensures Valid() && LeftRun(old(l0), l0, first, Whole(offset, granularity))
      ensures r == Times(Whole(offset, granularity) - first, granularity)
    {
      ghost var units, end := 64 * |l0|, Whole(offset, granularity);
      assert units == 131072 * groups;
      LeftBound(offset, units, granularity);
      r, first := ClaimLeftL1(offset);
      LeftSums(offset, first, end, granularity, groups, units);
      TakeRun(r, first, Whole(offset, granularity), Whole(offset - r, l2Granularity), Reach(offset, l2Granularity), old(l0));
    }

    /** The units `lo..hi`, `r` bytes, have been taken on levels 0 and 1, but not yet on level 2 and the total. */
    ghost predicate Claimed1(was: seq<slot>, lo: nat, hi: nat, r: nat)
      reads this
    {
      && Shape() && L1Exact(l0, l1) && Counted(l1, partialCount, unallocCount) && Extent() < 0x8000_0000_0000_0000
      && L2Exact(was, l2, groups) && available == FreeBytes(was, granularity)
      && Run(was, l0, lo, hi) && r == Times(hi - lo, granularity)
    }

    /** The end of both claims: lower the total and refresh level 2. */
    method TakeRun(r: nat, ghost lo: nat, ghost hi: nat, from: nat, to: nat, ghost was: seq<slot>)
      requires Claimed1(was, lo, hi, r)
      requires from <= lo / 131072 && Ceil(hi, 131072) <= to && from <= to <= groups
      modifies `l2, `available
      ensures Valid()
    {
      Claiming(was, l0, lo, hi, granularity);
      assert r <= available;
      available := available - r;
      MarkL2OnL1(from, to);
      L2AfterClaim(was, l0, old(l2), l2, lo, hi, from, to, groups);
    }

    /** `claim_free_to_right_l1`: the free run that begins at `offs`, with level 1 refreshed. */
    method ClaimRightL1(offs: nat) returns (r: nat, ghost end: nat)
      requires Valid() && Whole(offs, granularity) < 64 * |l0| && SafeRight(l0, offs, granularity)
      modifies `l0, `l1, `partialCount, `unallocCount
      ensures RightRun(old(l0), l0, Whole(offs, granularity), end)
      ensures r == Times(end - Whole(offs, granularity), granularity)
      ensures Claimed1(old(l0), Whole(offs, granularity), end, r)
      ensures RightGroups(offs, Whole(offs, granularity), end, granularity, groups)
    {
      var start := Whole(offs, granularity);
      var last := ClaimRightL0(start);
      end := last;
      RightFits(old(l0), l0, offs, end, granularity, groups);
      r := RefreshRun(start, last, old(l0));
    }

    /**
     `claim_free_to_right`: take the maximal free run that begins at the unit of
     `offset`; beyond the last unit there is none.  `SafeRight` is exactly what
     keeps the refresh of level 2 within the levels, see `RightStaysInside`.
     */
    method ClaimRight(offset: nat) returns (r: nat, ghost end: nat)
      requires Valid() && SafeRight(l0, offset, granularity)
      modifies `l0, `l1, `l2, `partialCount, `unallocCount, `available
      ensures Valid() && Whole(offset, granularity) <= end
      ensures r == Times(end - Whole(offset, granularity), granularity)
      ensures Whole(offset, granularity) < 64 * |l0| ==> RightRun(old(l0), l0, Whole(offset, granularity), end)
      ensures 64 * |l0| <= Whole(offset, granularity) ==> r == 0 && l0 == old(l0)
    {
      if |l0| <= Whole(offset, granularity) / 64 {
        return 0, Whole(offset, granularity);
      }
      r, end := ClaimRightRun(offset);
    }

    /** The claim from an offset that has a unit. */
    method ClaimRightRun(offset: nat) returns (r: nat, ghost end: nat)
      requires Valid() && Whole(offset, granularity) < 64 * |l0| && SafeRight(l0, offset, granularity)
      modifies `l0, `l1, `l2, `partialCount, `unallocCount, `available
      ensures Valid() && RightRun(old(l0), l0, Whole(offset, granularity), end)
      ensures r == Times(end - Whole(offset, granularity), granularity)
    {
      ghost var start := Whole(offset, granularity);
      r, end := ClaimRightL1(offset);
      var from, to := Whole(offset, l2Granularity), Reach(offset + r, l2Granularity);
      assert from == start / 131072 <= to && Ceil(end, 131072) <= to <= groups;
      TakeRun(r, start, end, from, to, old(l0));
    }

    /** Free the range `i` of the set. */
    method ReleaseRange(set_: seq<Seg>, i: nat, ghost was: seq<slot>)
      requires Levels() && i < |set_| && Canonical(set_) && InUnits(set_, granularity, 64 * |was|)
      requires NotFree(was, set_, granularity) && Released(was, l0, set_[..i], granularity)
      modifies `l0, `l1, `l2, `partialCount, `unallocCount
      ensures Levels() && Released(was, l0, set_[..i + 1], granularity)
      ensures FreeBytes(l0, granularity)
           == FreeBytes(old(l0), granularity) + (set_[i].end - set_[i].start)
    {
      SetRange(set_, i, granularity, 64 * |was|);
      FreeRange(set_[i].start, set_[i].end);
      ReleaseStep(was, old(l0), l0, set_, i, granularity);
    }

    /** `release`: free every range of the interval set; the total grows once, at the end. */
    method Release(set_: seq<Seg>)
      requires Valid() && Canonical(set_) && InUnits(set_, granularity, 64 * |l0|)
      requires NotFree(l0, set_, granularity)
      modifies `l0, `l1, `l2, `partialCount, `unallocCount, `available
      ensures Valid() && Released(old(l0), l0, set_, granularity)
    {
      var released := ReleaseAll(set_);
      AtMostExtent(l0, granularity);
      NoWrap(available, released, Extent());
      available := (available + released) % TwoTo64;
    }

    /** The loop of `_free_l2`, which only adds up what it frees. */
    method ReleaseAll(set_: seq<Seg>) returns (released: nat)
      requires Levels() && Canonical(set_) && InUnits(set_, granularity, 64 * |l0|) && NotFree(l0, set_, granularity)
      modifies `l0, `l1, `l2, `partialCount, `unallocCount
      ensures Levels() && Released(old(l0), l0, set_, granularity)
      ensures FreeBytes(old(l0), granularity) + released == FreeBytes(l0, granularity)
    {
      released := 0;
      var i: nat := 0;
      assert set_[..0] == [];
      while i < |set_|
        invariant i <= |set_| && Levels() && Released(old(l0), l0, set_[..i], granularity)
        invariant FreeBytes(old(l0), granularity) + released == FreeBytes(l0, granularity)
      {
        var s := set_[i];
        ReleaseRange(set_, i, old(l0));
        released := released + (s.end - s.start);
        i := i + 1;
      }
      assert set_[..i] == set_;
    }
  }

  /** Every range is made of whole units among the `n` that exist. */
  ghost predicate InUnits(set_: seq<Seg>, g: nat, n: nat)
    requires 0 < g
  {
    forall i :: 0 <= i < |set_| ==> WholeUnits(set_[i], g, n)
  }

  ghost predicate WholeUnits(s: Seg, g: nat, n: nat)
    requires 0 < g
  {
    Times(Whole(s.start, g), g) == s.start && Times(Whole(s.end, g), g) == s.end && s.end <= Times(n, g)
  }

  /** The first byte of unit `u` lies in the set. */
  ghost predicate UnitIn(set_: seq<Seg>, u: nat, g: nat) {
    Has(set_, Times(u, g))
  }

  /** No unit of the set is free. */
  ghost predicate NotFree(l0: seq<slot>, set_: seq<Seg>, g: nat) {
    forall u :: 0 <= u < 64 * |l0| && UnitIn(set_, u, g) ==> !Free(l0, u)
  }

  /** Besides the units of `l0`, those whose bytes lie in the set are free. */
  ghost predicate Released(l0: seq<slot>, l0': seq<slot>, set_: seq<Seg>, g: nat) {
    && |l0'| == |l0|
    && forall u :: 0 <= u < 64 * |l0| ==> (Free(l0', u) <==> Free(l0, u) || UnitIn(set_, u, g))
  }

  lemma SetRange(set_: seq<Seg>, i: nat, g: nat, n: nat)
    requires 0 < g && i < |set_| && Canonical(set_) && InUnits(set_, g, n)
    ensures Whole(set_[i].start, g) < Whole(set_[i].end, g) == Reach(set_[i].end, g) <= n
    ensures set_[i].end - set_[i].start == Times(Whole(set_[i].end, g) - Whole(set_[i].start, g), g)
  {
    var lo, hi := Whole(set_[i].start, g), Whole(set_[i].end, g);
    TimesOrder(hi, lo, g);
    Exactly(hi, g);
    Inside(set_[i].end, n, g);
    TimesSum(hi - lo, lo, g);
  }

  lemma HasMore(set_: seq<Seg>, i: nat, x: nat)
    requires i < |set_|
    ensures Has(set_[..i + 1], x) <==> Has(set_[..i], x) || set_[i].start <= x < set_[i].end
  {
    assert set_[..i + 1] == set_[..i] + [set_[i]];
    HasConcat(set_[..i], [set_[i]], x);
    HasOne(set_[i], x);
  }

  /** The units of the next range are still not free. */
  lemma NotYet(l0: seq<slot>, l0': seq<slot>, set_: seq<Seg>, i: nat, g: nat)
    requires 0 < g && i < |set_| && Canonical(set_) && InUnits(set_, g, 64 * |l0|)
    requires Released(l0, l0', set_[..i], g)
    requires NotFree(l0, set_, g)
    ensures Taken(l0', Whole(set_[i].start, g), Whole(set_[i].end, g))
  {
    var lo, hi := Whole(set_[i].start, g), Whole(set_[i].end, g);
    forall u | 0 <= u < 64 * |l0'| && lo <= u < hi ensures !Free(l0', u) {
      UnitInRange(u, lo, hi, g);
      assert set_[i].start <= Times(u, g) < set_[i].end;
      assert UnitIn(set_, u, g);
      assert !UnitIn(set_[..i], u, g);
    }
  }

  lemma ReleasedMore(a: seq<slot>, b: seq<slot>, c: seq<slot>, set_: seq<Seg>, i: nat, g: nat)
    requires 0 < g && i < |set_| && InUnits(set_, g, 64 * |a|)
    requires Released(a, b, set_[..i], g) && Freed(b, c, Whole(set_[i].start, g), Whole(set_[i].end, g))
    ensures Released(a, c, set_[..i + 1], g)
  {
    forall u | 0 <= u < 64 * |a| ensures Free(c, u) <==> Free(a, u) || UnitIn(set_[..i + 1], u, g) {
      UnitInRange(u, Whole(set_[i].start, g), Whole(set_[i].end, g), g);
      HasMore(set_, i, Times(u, g));
    }
  }

  lemma AtMostExtent(l0: seq<slot>, g: nat)
    ensures FreeBytes(l0, g) <= Times(64 * |l0|, g)
  {
    CountBound(l0);
    TimesMono(|FreeUnits(l0)|, 64 * |l0|, g);
  }

  lemma ReleaseStep(a: seq<slot>, b: seq<slot>, c: seq<slot>, set_: seq<Seg>, i: nat, g: nat)
    requires 0 < g && i < |set_| && Canonical(set_) && InUnits(set_, g, 64 * |a|) && NotFree(a, set_, g)
    requires Released(a, b, set_[..i], g) && Freed(b, c, Whole(set_[i].start, g), Whole(set_[i].end, g))
    ensures Released(a, c, set_[..i + 1], g)
    ensures FreeBytes(c, g) == FreeBytes(b, g) + (set_[i].end - set_[i].start)
  {
    SetRange(set_, i, g, 64 * |a|);
    NotYet(a, b, set_, i, g);
    Freeing(b, c, Whole(set_[i].start, g), Whole(set_[i].end, g), g);
    ReleasedMore(a, b, c, set_, i, g);
  }

  /** The maximal free run that ends at `end` has been taken. */
  ghost predicate LeftRun(l0: seq<slot>, l0': seq<slot>, first: nat, end: nat) {
    Run(l0, l0', first, end) && (first == 0 || !Free(l0, first - 1))
  }

  /** The maximal free run that begins at `start` has been taken. */
  ghost predicate RightRun(l0: seq<slot>, l0': seq<slot>, start: nat, end: nat) {
    Run(l0, l0', start, end) && (end == 64 * |l0| || !Free(l0, end))
  }

  /**
   The guard of a claim to the right: the offset starts a unit, or a unit at or
   after its own is not free; beyond the last unit, the offset starts a group.
   */
  ghost predicate SafeRight(l0: seq<slot>, offset: nat, g: nat)
    requires 0 < g
  {
    if Whole(offset, g) < 64 * |l0|
    then Times(Whole(offset, g), g) == offset || !AllFree(l0, Whole(offset, g), 64 * |l0|)
    else Times(Whole(offset, 131072 * g), 131072 * g) == offset
  }

  lemma StopsBefore(l0: seq<slot>, l0': seq<slot>, start: nat, end: nat)
    requires Run(l0, l0', start, end) && !AllFree(l0, start, 64 * |l0|)
    ensures end < 64 * |l0|
  {
  }

  lemma RightFits(l0: seq<slot>, l0': seq<slot>, offset: nat, end: nat, g: nat, groups: nat)
    requires 0 < g && 64 * |l0| == 131072 * groups && Whole(offset, g) < 64 * |l0| && SafeRight(l0, offset, g)
    requires Run(l0, l0', Whole(offset, g), end)
    ensures RightGroups(offset, Whole(offset, g), end, g, groups)
  {
    if Times(Whole(offset, g), g) != offset {
      StopsBefore(l0, l0', Whole(offset, g), end);
    }
    RightSums(offset, Whole(offset, g), end, g, groups);
  }

  /** The groups that a claim to the right of `offset` refreshes, when its run ends at `end`. */
  ghost predicate Refreshes(offset: nat, end: nat, g: nat, p: nat)
    requires 0 < g && Whole(offset, g) <= end
  {
    Whole(offset, 131072 * g) <= p < Reach(offset + Times(end - Whole(offset, g), g), 131072 * g)
  }

  /** The refresh reads only groups that exist if and only if the guard holds. */
  lemma RightStaysInside(l0: seq<slot>, l0': seq<slot>, offset: nat, end: nat, g: nat, groups: nat)
    requires 0 < g && |l0| == 2048 * groups
    requires if Whole(offset, g) < 64 * |l0| then RightRun(l0, l0', Whole(offset, g), end) else end == Whole(offset, g)
    ensures SafeRight(l0, offset, g) <==> forall p: nat :: Refreshes(offset, end, g, p) ==> p < groups
  {
    if Whole(offset, g) < 64 * |l0| {
      if SafeRight(l0, offset, g) {
        RightFits(l0, l0', offset, end, g, groups);
      } else {
        RightOverruns(offset, Whole(offset, g), end, g, groups);
        assert Refreshes(offset, end, g, groups);
      }
    } else {
      BeyondGroups(offset, g, groups);
      assert Times(0, g) == 0;
      if !SafeRight(l0, offset, g) {
        assert Refreshes(offset, end, g, Whole(offset, 131072 * g));
      }
    }
  }

  /** A run to the last unit from inside a unit reaches into the group after the last. */
  lemma RightOverruns(offset: nat, start: nat, end: nat, g: nat, groups: nat)
    requires 0 < g && start == Whole(offset, g) && start < end == 131072 * groups && Times(start, g) != offset
    ensures Whole(offset, 131072 * g) <= groups < Reach(offset + Times(end - start, g), 131072 * g)
  {
    Bounds(offset, g);
    Shift(offset, end - start, g);
    Exactly(start, g);
    PartUnit(offset, start, g);
    Coarser(offset, g);
    Coarser(offset + Times(end - start, g), g);
  }

  lemma PartUnit(offset: nat, start: nat, g: nat)
    requires 0 < g && start == Whole(offset, g) && Times(start, g) != offset
    ensures Reach(offset, g) == start + 1
  {
    Bounds(offset, g);
    TimesOrder(Reach(offset, g), start, g);
  }

  lemma BeyondGroups(offset: nat, g: nat, groups: nat)
    requires 0 < g && 131072 * groups <= Whole(offset, g)
    ensures groups <= Whole(offset, 131072 * g) <= Reach(offset, 131072 * g)
    ensures Times(Whole(offset, 131072 * g), 131072 * g) == offset <==> Whole(offset, 131072 * g) == Reach(offset, 131072 * g)
  {
    Coarser(offset, g);
    Bounds(offset, 131072 * g);
    if Times(Whole(offset, 131072 * g), 131072 * g) == offset {
      Exactly(Whole(offset, 131072 * g), 131072 * g);
    } else {
      PartUnit(offset, Whole(offset, 131072 * g), 131072 * g);
    }
  }

  /** The groups that a claim to the right refreshes cover the run and exist. */
  ghost predicate RightGroups(offset: nat, start: nat, end: nat, g: nat, groups: nat)
    requires 0 < g && start <= end
  {
    var to := Reach(offset + Times(end - start, g), 131072 * g);
    && Whole(offset, 131072 * g) == start / 131072
    && start / 131072 <= to && Ceil(end, 131072) <= to <= groups
  }

  lemma LeftBound(offset: nat, n: nat, g: nat)
    requires 0 < g <= offset <= Times(n, g)
    ensures 0 < Whole(offset, g) <= n
  {
    Inside(offset, n, g);
  }

  /** The groups that a claim to the left refreshes cover the run and exist. */
  ghost predicate LeftGroups(offset: nat, first: nat, end: nat, g: nat, groups: nat)
    requires 0 < g && first <= end
  {
    && Times(end - first, g) <= offset
    && Whole(offset - Times(end - first, g), 131072 * g) == first / 131072
    && first / 131072 <= Reach(offset, 131072 * g) && Ceil(end, 131072) <= Reach(offset, 131072 * g) <= groups
  }

  lemma LeftSums(offset: nat, first: nat, end: nat, g: nat, groups: nat, units: nat)
    requires 0 < g && end == Whole(offset, g) && first <= end && offset <= Times(units, g) && units == 131072 * groups
    ensures LeftGroups(offset, first, end, g, groups)
  {
    var n := end - first;
    Bounds(offset, g);
    TimesMono(n, end, g);
    Shift(offset - Times(n, g), n, g);
    Coarser(offset - Times(n, g), g);
    Inside(offset, 131072 * groups, g);
    GroupReach(offset, g, first, end, groups);
  }

  lemma RightSums(offset: nat, start: nat, end: nat, g: nat, groups: nat)
    requires 0 < g && start == Whole(offset, g) && start <= end <= 131072 * groups
    requires Times(start, g) == offset || end < 131072 * groups
    ensures RightGroups(offset, start, end, g, groups)
  {
    RightReach(offset, start, end, g, 131072 * groups);
    Coarser(offset, g);
    GroupReach(offset + Times(end - start, g), g, start, end, groups);
  }

  lemma GroupReach(y: nat, g: nat, lo: nat, hi: nat, groups: nat)
    requires 0 < g && lo <= hi <= Reach(y, g) <= 131072 * groups
    ensures lo / 131072 <= Reach(y, 131072 * g) && Ceil(hi, 131072) <= Reach(y, 131072 * g) <= groups
  {
    Coarser(y, g);
    GroupBounds(lo, hi, Reach(y, g), groups);
  }

  lemma RightReach(offset: nat, start: nat, end: nat, g: nat, n: nat)
    requires 0 < g && start == Whole(offset, g) && start <= end <= n
    requires Times(start, g) == offset || end < n
    ensures end <= Reach(offset + Times(end - start, g), g) <= n
  {
    Bounds(offset, g);
    Shift(offset, end - start, g);
    Exactly(start, g);
  }

  lemma GroupBounds(lo: nat, hi: nat, reach: nat, groups: nat)
    requires lo <= hi <= reach <= 131072 * groups
    ensures lo / 131072 <= Ceil(hi, 131072) <= Ceil(reach, 131072) <= groups
  {
  }

  /** Claiming free units takes their bytes from the total. */
  lemma Claiming(l0: seq<slot>, l0': seq<slot>, lo: nat, hi: nat, g: nat)
    requires Run(l0, l0', lo, hi)
    ensures FreeBytes(l0, g) == FreeBytes(l0', g) + Times(hi - lo, g)
  {
    CountFreed(l0', l0, lo, hi);
    TimesSum(|FreeUnits(l0')|, hi - lo, g);
  }

  /** The rounding in `init_add_free`, with its 64-bit subtraction. */
  method RoundInwards(offset: nat, length: nat, g: nat, ghost n: nat) returns (off: nat, len: nat)
    requires 0 < g && offset + length <= Times(n, g) < TwoTo64 && exists m: nat :: TwoTo64 == Times(m, g)
    ensures off == Times(Reach(offset, g), g)
    ensures off <= offset + length ==>
              Inward(off, len, g, Reach(offset, g), Whole(offset + length, g), n)
    ensures offset + length < off ==>
              Wrapped(off, len, g, Whole(offset + length, g), n) && Reach(offset, g) == Whole(offset + length, g) + 1
  {
    off := Times(Reach(offset, g), g);
    Inside(offset, n, g);
    TimesMono(Reach(offset, g), n, g);
    len := Times(Whole((TwoTo64 + offset + length - off) % TwoTo64, g), g);
    ghost var lo, hi := Reach(offset, g), Whole(offset + length, g);
    if off <= offset + length {
      InnerUnits(offset, length, g, lo, hi, n);
    } else {
      WrappedUnits(offset, length, g, lo, hi, n);
    }
  }

  /** `off` and `len` are the units `lo..hi` of the `n` that exist. */
  ghost predicate Inward(off: nat, len: nat, g: nat, lo: nat, hi: nat, n: nat)
    requires 0 < g
  {
    && lo <= hi <= n && Whole(off, g) == lo && Reach(off + len, g) == hi
    && len == Times(hi - lo, g) && (len == 0 <==> lo == hi) && off + len <= Times(n, g)
  }

  /** The range held no unit: `len` stands for minus one unit. */
  ghost predicate Wrapped(off: nat, len: nat, g: nat, hi: nat, n: nat) {
    && off == Times(hi, g) + g && off <= Times(n, g)
    && len == TwoTo64 - g && (off + len) % TwoTo64 == off - g
  }

  /** The free bytes. */
  ghost function FreeBytes(l0: seq<slot>, g: nat): nat {
    Times(|FreeUnits(l0)|, g)
  }

  /** Freeing units that were not free adds their bytes to the total. */
  lemma Freeing(l0: seq<slot>, l0': seq<slot>, lo: nat, hi: nat, g: nat)
    requires Freed(l0, l0', lo, hi) && lo <= hi <= 64 * |l0| && Taken(l0, lo, hi)
    ensures FreeBytes(l0', g) == FreeBytes(l0, g) + Times(hi - lo, g) <= Times(64 * |l0|, g)
  {
    CountFreed(l0, l0', lo, hi);
    TimesSum(|FreeUnits(l0)|, hi - lo, g);
    AtMostExtent(l0', g);
  }

  lemma BeforeUnit(off: nat, g: nat, hi: nat, n: nat)
    requires 0 < g && off == Times(hi, g) + g && off <= Times(n, g)
    ensures Whole(off, g) == hi + 1 && Reach(off - g, g) == hi <= n
  {
    Exactly(hi, g);
    Exactly(hi + 1, g);
    Inside(off, n, g);
  }

  /** Adding minus one unit changes the total. */
  lemma Lost(x: nat, g: nat)
    requires 0 < g < TwoTo64 && x < TwoTo64
    ensures (x + (TwoTo64 - g)) % TwoTo64 != x
  {
  }

  /** Below 2^64 the 64-bit sum is the sum. */
  lemma NoWrap(x: nat, y: nat, bound: nat)
    requires x + y <= bound < TwoTo64
    ensures (x + y) % TwoTo64 == x + y
  {
  }

  /** Rounding the bounds to whole entries first changes nothing. */
  lemma Aligned512(lo: nat, hi: nat)
    ensures P2Align(lo, 512) / 512 == lo / 512 && Ceil(P2RoundUp(hi, 512), 512) == Ceil(hi, 512)
    ensures hi % 512 == 0 ==> P2RoundUp(hi, 512) == hi
  {
    RoundUpDiv(hi, 512);
    RoundUpDiv(P2RoundUp(hi, 512), 512);
  }

  lemma WithinEntries(hi: nat, n: nat)
    requires hi <= 16384 * n
    ensures P2RoundUp(hi, 512) <= 16384 * n
  {
  }

  lemma RefreshedMore(l0: seq<slot>, a: seq<slot>, b: seq<slot>, c: seq<slot>, from: nat, p: nat, groups: nat)
    requires L2Refreshed(l0, a, b, from, p, groups) && from <= p < groups
    requires if GroupFree(l0, p) then Freed(b, c, p, p + 1) else Claimed(b, c, p, p + 1)
    ensures L2Refreshed(l0, a, c, from, p + 1, groups)
  {
    forall q | 0 <= q < 64 * |a| ensures L2Bit(c, q) <==> if from <= q < p + 1 then GroupFree(l0, q) else L2Bit(a, q) {
      assert L2Bit(c, q) == Free(c, q) && L2Bit(b, q) == Free(b, q);
    }
  }

  /** Allocating units of cleared levels changes nothing. */
  lemma StillClear(a0: seq<slot>, a1: seq<slot>, b0: seq<slot>, b1: seq<slot>)
    requires NoneFree(a0, 0, 64 * |a0|) && L1Exact(a0, a1) && L1Exact(b0, b1) && |b0| == |a0|
    requires forall u :: 0 <= u < 64 * |a0| && Free(b0, u) ==> Free(a0, u)
    ensures b0 == a0 && b1 == a1
  {
    SameL0(a0, b0);
    SameL1(a0, a1, b1);
  }

  lemma Extend(l0: seq<slot>, lo: nat, mid: nat, hi: nat)
    requires lo <= mid <= hi <= 64 * |l0|
    ensures AllFree(l0, lo, hi) <==> AllFree(l0, lo, mid) && AllFree(l0, mid, hi)
    ensures NoneFree(l0, lo, hi) <==> NoneFree(l0, lo, mid) && NoneFree(l0, mid, hi)
  {
  }

  // Concrete allocators on which the two conditions fail.

  lemma PageUnits()
    ensures exists n: nat :: TwoTo64 == Times(n, 4096)
    ensures Reach(131072 * 4096, 131072 * 4096) == 1 && Times(1, 131072 * 4096) == 131072 * 4096
    ensures Times(131072, 4096) == 131072 * 4096 && Whole(131072 * 4096, 4096) == 131072
  {
    TimesIs(0x10_0000_0000_0000, 4096);
    TimesIs(131072, 4096);
    Exactly(131072, 4096);
    assert Times(0, 131072 * 4096) == 0 && Reach(0, 131072 * 4096) == 0;
  }

  /** One group of 4096-byte units, none of them free. */
  method OneGroup() returns (b: Bitmap)
    ensures fresh(b) && b.Valid() && b.granularity == 4096 && |b.l0| == 2048 && b.available == 0
    ensures b.Extent() == 131072 * 4096 && NoneFree(b.l0, 0, 131072)
  {
    PageUnits();
    b := new Bitmap(131072 * 4096, 4096);
    GroupCount(b.groups);
  }

  lemma GroupCount(groups: nat)
    requires 131072 * 4096 <= Times(64 * (2048 * groups), 4096) < 131072 * 4096 + 131072 * 4096
    ensures groups == 1 && Times(64 * 2048, 4096) == 131072 * 4096
  {
    TimesIs(64 * (2048 * groups), 4096);
    TimesIs(64 * 2048, 4096);
  }

  /** Adding a range inside one unit spoils the total: one byte of the first unit. */
  method SubUnitRangeWraps() returns (b: Bitmap)
    ensures fresh(b) && !b.Valid() && |b.l0| == 2048 && NoneFree(b.l0, 0, 131072)
  {
    b := OneGroup();
    PageUnits();
    InsideUnits(b.granularity);
    b.InitAddFree(1, 1);
  }

  /** In the second unit it also sets the bit of a group with nothing free. */
  method SubUnitRangeSetsGroup() returns (b: Bitmap)
    ensures fresh(b) && |b.l0| == 2048 && NoneFree(b.l0, 0, 131072)
    ensures 0 < |b.l2| && L2Bit(b.l2, 0) && !GroupFree(b.l0, 0)
  {
    b := OneGroup();
    PageUnits();
    InsideUnits(b.granularity);
    ghost var was := b.l2;
    b.InitAddFree(4097, 1);
    FirstGroupSet(was, b.l2);
  }

  /** The numbers of a one-byte range in the first and in the second unit. */
  lemma InsideUnits(g: nat)
    requires g == 4096
    ensures Reach(1, g) == 1 && Whole(2, g) == 0 && Times(1, g) == g
    ensures Reach(g + 1, g) == 2 && Whole(g + 2, g) == 1 && Times(2, g) == 2 * g
  {
    assert Times(0, g) == 0 && Reach(0, g) == 0;
  }

  lemma FirstGroupSet(l2: seq<slot>, l2': seq<slot>)
    requires Freed(l2, l2', 2 / 131072, Ceil(1, 131072)) && 0 < |l2|
    ensures L2Bit(l2', 0)
  {
    assert Free(l2', 0);
  }

  /** With everything free, a claim to the right from inside the first unit is outside the guard. */
  method RightClaimOverruns() returns (b: Bitmap)
    ensures fresh(b) && b.Valid() && b.granularity == 4096 && |b.l0| == 2048 && AllFree(b.l0, 0, 131072)
    ensures !SafeRight(b.l0, 1, b.granularity)
  {
    b := OneGroup();
    PageUnits();
    assert Reach(0, 4096) == 0 && Times(0, 4096) == 0 && Whole(1, 4096) == 0;
    b.InitAddFree(0, 131072 * 4096);
  }

  /** The levels, the counters and the total are determined by which units are free. */
  lemma StateUnique(l0: seq<slot>, a1: seq<slot>, a2: seq<slot>, pa: nat, ua: nat,
                    l0': seq<slot>, b1: seq<slot>, b2: seq<slot>, pb: nat, ub: nat, groups: nat)
    requires |l0'| == |l0| && forall u :: 0 <= u < 64 * |l0| ==> (Free(l0', u) <==> Free(l0, u))
    requires L1Exact(l0, a1) && Counted(a1, pa, ua) && L2Exact(l0, a2, groups)
    requires L1Exact(l0', b1) && Counted(b1, pb, ub) && L2Exact(l0', b2, groups) && |a2| == |b2|
    ensures l0' == l0 && b1 == a1 && b2 == a2 && pb == pa && ub == ua
  {
    SameL0(l0, l0');
    SameL1(l0, a1, b1);
    SameL2(l0, a2, b2, groups);
  }

  /** Claiming the run to the left of `offset` and releasing it again restores every level and counter. */
  method ClaimThenRelease(b: Bitmap, offset: nat)
    requires b.Valid() && b.granularity <= offset <= b.Extent()
    modifies b
    ensures b.Valid() && b.l0 == old(b.l0) && b.l1 == old(b.l1) && b.l2 == old(b.l2)
    ensures b.partialCount == old(b.partialCount) && b.unallocCount == old(b.unallocCount)
    ensures b.available == old(b.available)
  {
    var r, first := b.ClaimLeft(offset);
    var g := b.granularity;
    var end := Times(Whole(offset, g), g);
    ghost var mid := b.l0;
    RunBytes(first, Whole(offset, g), g);
    if r != 0 {
      var set_ := [Seg(end - r, end)];
      OneRange(old(b.l0), mid, first, Whole(offset, g), g, set_);
      b.Release(set_);
      RunUndone(old(b.l0), mid, b.l0, first, Whole(offset, g), g, set_);
    }
    StateUnique(old(b.l0), old(b.l1), old(b.l2), old(b.partialCount), old(b.unallocCount),
                b.l0, b.l1, b.l2, b.partialCount, b.unallocCount, b.groups);
  }

  lemma RunBytes(lo: nat, hi: nat, g: nat)
    requires 0 < g && lo <= hi
    ensures Times(hi, g) - Times(hi - lo, g) == Times(lo, g)
    ensures Times(hi - lo, g) == 0 <==> lo == hi
  {
    TimesSum(lo, hi - lo, g);
  }

  /** The one range of a release that undoes a claim. */
  lemma OneRange(l0: seq<slot>, l0': seq<slot>, lo: nat, hi: nat, g: nat, set_: seq<Seg>)
    requires 0 < g && Run(l0, l0', lo, hi) && lo < hi && set_ == [Seg(Times(lo, g), Times(hi, g))]
    ensures Canonical(set_) && InUnits(set_, g, 64 * |l0'|) && NotFree(l0', set_, g)
  {
    TimesOrder(hi, lo, g);
    Exactly(lo, g);
    Exactly(hi, g);
    TimesMono(hi, 64 * |l0|, g);
    forall u | 0 <= u < 64 * |l0'| && UnitIn(set_, u, g) ensures !Free(l0', u) {
      UnitInRange(u, lo, hi, g);
    }
  }

  lemma RunUndone(l0: seq<slot>, l0': seq<slot>, l0'': seq<slot>, lo: nat, hi: nat, g: nat, set_: seq<Seg>)
    requires 0 < g && Run(l0, l0', lo, hi) && set_ == [Seg(Times(lo, g), Times(hi, g))] && Released(l0', l0'', set_, g)
    ensures |l0''| == |l0| && forall u :: 0 <= u < 64 * |l0| ==> (Free(l0'', u) <==> Free(l0, u))
  {
    forall u | 0 <= u < 64 * |l0| ensures Free(l0'', u) <==> Free(l0, u) {
      UnitInRange(u, lo, hi, g);
      HasOne(set_[0], Times(u, g));
      assert UnitIn(set_, u, g) <==> lo <= u < hi;
    }
  }
}
