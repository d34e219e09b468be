/**
 The AVL allocator without a range cap (`blk/avl_allocator.cc`): two indexes and
 a counter that describe one set of free bytes.  The trees are sequences in tree
 order; the cutoffs of the first-fit search are an arbitrary early give-up.
 */
module AvlAllocator {
  import opened Options
  import opened Ranges
  import opened AvlIndex
  import opened IntArith

  lemma HasAround(a: seq<Seg>, m: seq<Seg>, b: seq<Seg>, x: nat)
    ensures Has(a + m + b, x) <==> Has(a, x) || Has(m, x) || Has(b, x)
  {
    HasConcat(a, m, x);
    HasConcat(a + m, b, x);
  }

  lemma HasTwo(s: Seg, t: Seg, x: nat)
    ensures Has([s, t], x) <==> s.start <= x < s.end || t.start <= x < t.end
  {
    assert [s, t] == [s] + [t];
    HasConcat([s], [t], x);
    HasOne(s, x);
    HasOne(t, x);
  }

  /** Replacing the middle of a list by ranges that cover `lo..hi` more. */
  lemma Covers(a: seq<Seg>, m: seq<Seg>, m': seq<Seg>, b: seq<Seg>, lo: nat, hi: nat)
    requires forall x: nat :: Has(m', x) <==> Has(m, x) || lo <= x < hi
    ensures forall x: nat :: Has(a + m' + b, x) <==> Has(a + m + b, x) || lo <= x < hi
  {
    forall x: nat ensures Has(a + m' + b, x) <==> Has(a + m + b, x) || lo <= x < hi {
      HasAround(a, m, b, x);
      HasAround(a, m', b, x);
    }
  }

  /** Replacing the range at `|a|` by what is left of it outside `lo..hi`. */
  lemma Uncovers(a: seq<Seg>, s: Seg, m': seq<Seg>, b: seq<Seg>, lo: nat, hi: nat)
    requires Canonical(a + [s] + b) && s.start <= lo < hi <= s.end
    requires forall x: nat :: Has(m', x) <==> s.start <= x < s.end && !(lo <= x < hi)
    ensures forall x: nat :: Has(a + m' + b, x) <==> Has(a + [s] + b, x) && !(lo <= x < hi)
  {
    var rs := a + [s] + b;
    forall i | 0 <= i < |a| ensures a[i].end <= lo {
      assert rs[i] == a[i] && rs[|a|] == s;
    }
    forall i | 0 <= i < |b| ensures hi <= b[i].start {
      assert rs[|a| + 1 + i] == b[i] && rs[|a|] == s;
    }
    forall x: nat ensures Has(a + m' + b, x) <==> Has(rs, x) && !(lo <= x < hi) {
      HasAround(a, [s], b, x);
      HasAround(a, m', b, x);
      HasOne(s, x);
    }
  }

  /** The halves of a canonical list around one of its ranges. */
  lemma Around(rs: seq<Seg>, k: nat)
    requires Canonical(rs) && k < |rs|
    ensures rs == rs[..k] + [rs[k]] + rs[k + 1..]
    ensures Canonical(rs[..k]) && Canonical(rs[k + 1..]) && rs[k].start < rs[k].end
    ensures 0 < k ==> rs[..k][k - 1].end < rs[k].start
    ensures k + 1 < |rs| ==> rs[k].end < rs[k + 1..][0].start
  {
  }

  /** The list with range `k` replaced by `m`, which keeps the gaps to its neighbours. */
  lemma Replaced(rs: seq<Seg>, k: nat, m: Seg)
    requires Canonical(rs) && k < |rs| && m.start < m.end
    requires 0 < k ==> rs[k - 1].end < m.start
    requires k + 1 < |rs| ==> m.end < rs[k + 1].start
    ensures Canonical(rs[..k] + [m] + rs[k + 1..])
  {
    Around(rs, k);
    CanonicalSplice(rs[..k], m, rs[k + 1..]);
  }

  /** A range between positions `i` and `j` of the list, apart from both neighbours. */
  lemma Between(rs: seq<Seg>, i: nat, j: nat, m: Seg)
    requires Canonical(rs) && i <= j <= |rs| && m.start < m.end
    requires 0 < i ==> rs[i - 1].end < m.start
    requires j < |rs| ==> m.end < rs[j].start
    ensures Canonical(rs[..i] + [m] + rs[j..])
  {
    CanonicalSlice(rs, 0, i);
    CanonicalSlice(rs, j, |rs|);
    CanonicalSplice(rs[..i], m, rs[j..]);
  }

  lemma InsertedAt(rs: seq<Seg>, a: seq<Seg>, s: Seg, b: seq<Seg>)
    requires Canonical(rs) && rs == a + b && s.start < s.end
    requires a != [] ==> a[|a| - 1].end < s.start
    requires b != [] ==> s.end < b[0].start
    ensures Canonical(a + [s] + b)
    ensures forall x: nat :: Has(a + [s] + b, x) <==> Has(rs, x) || s.start <= x < s.end
  {
    Halves(a, b);
    CanonicalSplice(a, s, b);
    InsertedCover(a, s, b);
  }

  lemma Halves(a: seq<Seg>, b: seq<Seg>)
    requires Canonical(a + b)
    ensures Canonical(a) && Canonical(b)
  {
    assert a == (a + b)[0..|a|] && b == (a + b)[|a|..|a + b|];
    CanonicalSlice(a + b, 0, |a|);
    CanonicalSlice(a + b, |a|, |a + b|);
  }

  lemma InsertedCover(a: seq<Seg>, s: Seg, b: seq<Seg>)
    ensures forall x: nat :: Has(a + [s] + b, x) <==> Has(a + b, x) || s.start <= x < s.end
  {
    forall x: nat ensures Has(a + [s] + b, x) <==> Has(a + b, x) || s.start <= x < s.end {
      HasAround(a, [s], b, x);
      HasConcat(a, b, x);
      HasOne(s, x);
    }
  }

  lemma TwoMiddle(a: seq<Seg>, s: Seg, t: Seg, b: seq<Seg>)
    ensures a + [s] + ([t] + b) == a + [s, t] + b
    ensures a + ([t] + b) == a + [t] + b
  {
  }

  /** The list with ranges `k - 1` and `k` replaced by one. */
  lemma Joined(rs: seq<Seg>, k: nat)
    requires Canonical(rs) && 0 < k < |rs|
    ensures Canonical(rs[..k - 1] + [rs[k]] + rs[k + 1..])
    ensures Canonical(rs[..k - 1] + [Seg(rs[k - 1].start, rs[k].end)] + rs[k + 1..])
    ensures rs == rs[..k - 1] + [rs[k - 1], rs[k]] + rs[k + 1..]
  {
    assert rs[k - 1].end < rs[k].start;
    assert 1 < k ==> rs[k - 2].end < rs[k - 1].start;
    Between(rs, k - 1, k + 1, rs[k]);
    Between(rs, k - 1, k + 1, Seg(rs[k - 1].start, rs[k].end));
  }

  /** The list with range `k` replaced by the two pieces outside `start..end`. */
  lemma Parted(rs: seq<Seg>, k: nat, start: nat, end: nat)
    requires Canonical(rs) && k < |rs| && rs[k].start < start < end < rs[k].end
    ensures Canonical(rs[..k] + [Seg(end, rs[k].end)] + rs[k + 1..])
    ensures Canonical(rs[..k] + [Seg(rs[k].start, start)] + ([Seg(end, rs[k].end)] + rs[k + 1..]))
  {
    var a, b := rs[..k], rs[k + 1..];
    var l, r := Seg(rs[k].start, start), Seg(end, rs[k].end);
    Around(rs, k);
    Between(rs, k, k + 1, r);
    CanonicalConcat([r], b);
    CanonicalSplice(a, l, [r] + b);
  }

  class AvlAllocator {
    const deviceSize: nat
    const blockSize: nat
    const maxSearchCount: nat
    var ranges: seq<Seg>
    var bySize: seq<Seg>
    var numFree: nat
    var lbas: map<nat, nat>

    /** Both indexes and the counter describe one coalesced set of free bytes. */
    ghost predicate Valid()
      reads this
    {
      && 0 < deviceSize && 0 < blockSize
      && Canonical(ranges) && Indexed(ranges, bySize, numFree)
    }

    constructor (deviceSize: nat, blockSize: nat)
      requires 0 < deviceSize && 0 < blockSize
      ensures Valid() && ranges == [] && bySize == [] && numFree == 0
      ensures this.deviceSize == deviceSize && this.blockSize == blockSize && maxSearchCount == 100
    {
      this.deviceSize, this.blockSize, maxSearchCount := deviceSize, blockSize, 100;
      ranges, bySize, numFree, lbas := [], [], 0, map[];
    }

    /** `_range_size_tree_rm`; its assertion on the counter never fires. */
    method SizeTreeRemove(s: Seg, ghost a: seq<Seg>, ghost b: seq<Seg>)
      requires Canonical(a + [s] + b) && Indexed(a + [s] + b, bySize, numFree)
      modifies `bySize, `numFree
      ensures Indexed(a + b, bySize, numFree)
    {
      IndexRemove(a, s, b, bySize, numFree);
      SumPositive(a + [s] + b);
      assert (a + [s] + b)[|a|] == s;
      assert s.Length() <= numFree;
      numFree := numFree - s.Length();
      bySize := Erase(bySize, s);
    }

    /** `_range_size_tree_try_insert`, without a cap. */
    method SizeTreeInsert(s: Seg, ghost a: seq<Seg>, ghost b: seq<Seg>)
      requires Canonical(a + [s] + b) && Indexed(a + b, bySize, numFree)
      modifies `bySize, `numFree
      ensures Indexed(a + [s] + b, bySize, numFree)
    {
      IndexAdd(a, s, b, bySize, numFree);
      assert (a + [s] + b)[|a|] == s;
      bySize := Insert(bySize, s);
      numFree := numFree + s.Length();
    }

    /** The first range that starts at or after `end`. */
    method UpperBound(end: nat) returns (k: nat)
      ensures k <= |ranges|
      ensures forall i :: 0 <= i < k ==> ranges[i].start < end
      ensures k < |ranges| ==> end <= ranges[k].start
    {
      k := 0;
      while k < |ranges| && ranges[k].start < end
        invariant k <= |ranges|
        invariant forall i :: 0 <= i < k ==> ranges[i].start < end
      {
        k := k + 1;
      }
    }

    lemma BeforeStart(k: nat, start: nat, end: nat)
      requires Canonical(ranges) && k <= |ranges| && start < end
      requires forall x: nat :: start <= x < end ==> !Has(ranges, x)
      requires forall i :: 0 <= i < k ==> ranges[i].start < end
      ensures forall i :: 0 <= i < k ==> ranges[i].end <= start
    {
      forall i | 0 <= i < k ensures ranges[i].end <= start {
        var x := if start < ranges[i].start then ranges[i].start else start;
        assert start <= x < end;
        assert !Has(ranges, x);
      }
    }

    /** `_add_to_tree`: insert a range that is not free yet, merging with its neighbours. */
    method AddToTree(start: nat, size: nat)
      requires Valid() && 0 < size
      requires forall x: nat :: start <= x < start + size ==> !Has(ranges, x)
      modifies `ranges, `bySize, `numFree
      ensures Valid()
      ensures forall x: nat :: Has(ranges, x) <==> Has(old(ranges), x) || start <= x < start + size
    {
      var end := start + size;
      var k := UpperBound(end);
      BeforeStart(k, start, end);
      var mergeBefore := 0 < k && ranges[k - 1].end == start;
      var mergeAfter := k < |ranges| && ranges[k].start == end;
      if mergeBefore && mergeAfter {
        MergeBoth(k, start, end);
      } else if mergeBefore {
        MergeBefore(k, start, end);
      } else if mergeAfter {
        MergeAfter(k, start, end);
      } else {
        InsertAlone(k, start, end);
      }
    }

    method InsertAlone(k: nat, start: nat, end: nat)
      requires Valid() && k <= |ranges| && start < end
      requires 0 < k ==> ranges[k - 1].end < start
      requires k < |ranges| ==> end < ranges[k].start
      modifies `ranges, `bySize, `numFree
      ensures Valid()
      ensures forall x: nat :: Has(ranges, x) <==> Has(old(ranges), x) || start <= x < end
    {
      var a, b := ranges[..k], ranges[k..];
      var s := Seg(start, end);
      assert ranges == a + b;
      assert a != [] ==> a[|a| - 1] == ranges[k - 1];
      assert b != [] ==> b[0] == ranges[k];
      InsertedAt(ranges, a, s, b);
      SizeTreeInsert(s, a, b);
      ranges := a + [s] + b;
    }

    method MergeBoth(k: nat, start: nat, end: nat)
      requires Valid() && 0 < k < |ranges| && start < end
      requires ranges[k - 1].end == start && ranges[k].start == end
      modifies `ranges, `bySize, `numFree
      ensures Valid()
      ensures forall x: nat :: Has(ranges, x) <==> Has(old(ranges), x) || start <= x < end
    {
      var a, s, t, b := ranges[..k - 1], ranges[k - 1], ranges[k], ranges[k + 1..];
      var m := Seg(s.start, t.end);
      Joined(ranges, k);
      TwoMiddle(a, s, t, b);
      SizeTreeRemove(s, a, [t] + b);
      SizeTreeRemove(t, a, b);
      SizeTreeInsert(m, a, b);
      forall x: nat ensures Has([m], x) <==> Has([s, t], x) || start <= x < end { HasOne(m, x); HasTwo(s, t, x); }
      Covers(a, [s, t], [m], b, start, end);
      ranges := a + [m] + b;
    }

    /** Put `m` in the place of range `k`, in both indexes. */
    method ReplaceRange(k: nat, m: Seg)
      requires Valid() && k < |ranges| && m.start < m.end
      requires 0 < k ==> ranges[k - 1].end < m.start
      requires k + 1 < |ranges| ==> m.end < ranges[k + 1].start
      modifies `ranges, `bySize, `numFree
      ensures Valid() && ranges == old(ranges[..k] + [m] + ranges[k + 1..])
      ensures numFree == old(numFree) - old(ranges[k].Length()) + m.Length()
    {
      var a, s, b := ranges[..k], ranges[k], ranges[k + 1..];
      Around(ranges, k);
      Replaced(ranges, k, m);
      SumSplice(a, s, b);
      SumSplice(a, m, b);
      SizeTreeRemove(s, a, b);
      SizeTreeInsert(m, a, b);
      ranges := a + [m] + b;
    }

    method MergeBefore(k: nat, start: nat, end: nat)
      requires Valid() && 0 < k <= |ranges| && start < end
      requires ranges[k - 1].end == start && (k < |ranges| ==> end < ranges[k].start)
      modifies `ranges, `bySize, `numFree
      ensures Valid()
      ensures forall x: nat :: Has(ranges, x) <==> Has(old(ranges), x) || start <= x < end
    {
      ghost var a, s, b := ranges[..k - 1], ranges[k - 1], ranges[k..];
      Around(ranges, k - 1);
      var m := Seg(ranges[k - 1].start, end);
      ReplaceRange(k - 1, m);
      forall x: nat ensures Has([m], x) <==> Has([s], x) || start <= x < end { HasOne(m, x); HasOne(s, x); }
      Covers(a, [s], [m], b, start, end);
    }

    method MergeAfter(k: nat, start: nat, end: nat)
      requires Valid() && k < |ranges| && start < end
      requires ranges[k].start == end && (0 < k ==> ranges[k - 1].end < start)
      modifies `ranges, `bySize, `numFree
      ensures Valid()
      ensures forall x: nat :: Has(ranges, x) <==> Has(old(ranges), x) || start <= x < end
    {
      ghost var a, s, b := ranges[..k], ranges[k], ranges[k + 1..];
      Around(ranges, k);
      var m := Seg(start, ranges[k].end);
      ReplaceRange(k, m);
      forall x: nat ensures Has([m], x) <==> Has([s], x) || start <= x < end { HasOne(m, x); HasOne(s, x); }
      Covers(a, [s], [m], b, start, end);
    }

    /** `_process_range_removal`: cut `start..end` out of range `k`, leaving up to two pieces. */
    method ProcessRangeRemoval(start: nat, end: nat, k: nat)
      requires Valid() && k < |ranges| && ranges[k].start <= start < end <= ranges[k].end
      modifies `ranges, `bySize, `numFree
      ensures Valid()
      ensures forall x: nat :: Has(ranges, x) <==> Has(old(ranges), x) && !(start <= x < end)
      ensures numFree == old(numFree) - (end - start)
    {
      var leftOver := ranges[k].start != start;
      var rightOver := ranges[k].end != end;
      if leftOver && rightOver {
        SplitRange(k, start, end);
      } else if leftOver || rightOver {
        ghost var a, s, b := ranges[..k], ranges[k], ranges[k + 1..];
        Around(ranges, k);
        var m := if leftOver then Seg(ranges[k].start, start) else Seg(end, ranges[k].end);
        ReplaceRange(k, m);
        forall x: nat ensures Has([m], x) <==> s.start <= x < s.end && !(start <= x < end) { HasOne(m, x); }
        Uncovers(a, s, [m], b, start, end);
      } else {
        DropRange(k);
      }
    }

    method DropRange(k: nat)
      requires Valid() && k < |ranges|
      modifies `ranges, `bySize, `numFree
      ensures Valid() && numFree == old(numFree) - old(ranges[k].Length())
      ensures forall x: nat :: Has(ranges, x) <==>
                Has(old(ranges), x) && !(old(ranges[k].start) <= x < old(ranges[k].end))
    {
      var a, s, b := ranges[..k], ranges[k], ranges[k + 1..];
      Around(ranges, k);
      SizeTreeRemove(s, a, b);
      assert a + b == a + [] + b;
      CanonicalConcat(a, b);
      SumSplice(a, s, b);
      SumConcat(a, b);
      Uncovers(a, s, [], b, s.start, s.end);
      ranges := a + b;
    }

    method SplitRange(k: nat, start: nat, end: nat)
      requires Valid() && k < |ranges| && ranges[k].start < start < end < ranges[k].end
      modifies `ranges, `bySize, `numFree
      ensures Valid()
      ensures forall x: nat :: Has(ranges, x) <==> Has(old(ranges), x) && !(start <= x < end)
      ensures numFree == old(numFree) - (end - start)
    {
      var a, s, b := ranges[..k], ranges[k], ranges[k + 1..];
      var l, r := Seg(s.start, start), Seg(end, s.end);
      Around(ranges, k);
      Parted(ranges, k, start, end);
      TwoMiddle(a, l, r, b);
      SumSplice(a, s, b);
      SumSplice(a, l, [r] + b);
      SumConcat([r], b);
      assert [r][1..] == [];
      SizeTreeRemove(s, a, b);
      SizeTreeInsert(r, a, b);
      SizeTreeInsert(l, a, [r] + b);
      forall x: nat ensures Has([l, r], x) <==> s.start <= x < s.end && !(start <= x < end) { HasTwo(l, r, x); }
      Uncovers(a, s, [l, r], b, start, end);
      ranges := a + [l, r] + b;
    }

    /** The first range that ends after `start`. */
    method LowerBound(start: nat) returns (k: nat)
      ensures k <= |ranges|
      ensures forall i :: 0 <= i < k ==> ranges[i].end <= start
      ensures k < |ranges| ==> start < ranges[k].end
    {
      k := 0;
      while k < |ranges| && ranges[k].end <= start
        invariant k <= |ranges|
        invariant forall i :: 0 <= i < k ==> ranges[i].end <= start
      {
        k := k + 1;
      }
    }

    /** `_remove_from_tree`: succeeds exactly when one free range holds all of it. */
    method RemoveFromTree(start: nat, size: nat) returns (ok: bool)
      requires Valid() && 0 < size
      modifies `ranges, `bySize, `numFree
      ensures Valid()
      ensures ok <==> exists k :: 0 <= k < |old(ranges)| && old(ranges)[k].start <= start && start + size <= old(ranges)[k].end
      ensures !ok ==> ranges == old(ranges) && bySize == old(bySize) && numFree == old(numFree)
      ensures ok ==> numFree == old(numFree) - size
      ensures ok ==> forall x: nat :: Has(ranges, x) <==> Has(old(ranges), x) && !(start <= x < start + size)
    {
      var end := start + size;
      var k := LowerBound(start);
      if k == |ranges| || start < ranges[k].start || ranges[k].end < end {
        return false;
      }
      SumPositive(ranges);
      assert size <= numFree;
      ProcessRangeRemoval(start, end, k);
      return true;
    }

    /** `init_add_free`. */
    method InitAddFree(offset: nat, length: nat)
      requires Valid() && offset + length <= deviceSize
      requires forall x: nat :: offset <= x < offset + length ==> !Has(ranges, x)
      modifies `ranges, `bySize, `numFree
      ensures Valid()
      ensures forall x: nat :: Has(ranges, x) <==> Has(old(ranges), x) || offset <= x < offset + length
    {
      if length != 0 {
        AddToTree(offset, length);
      }
    }

    /** `init_rm_free`: a range that is free as a whole stops being free; any other request changes nothing. */
    method InitRmFree(offset: nat, length: nat)
      requires Valid() && offset + length <= deviceSize
      modifies `ranges, `bySize, `numFree
      ensures Valid()
      ensures Within(old(ranges), offset, length) ==> Without(old(ranges), ranges, offset, length)
      ensures !Within(old(ranges), offset, length) ==> ranges == old(ranges) && numFree == old(numFree)
    {
      if length != 0 {
        WithinOneRange(ranges, offset, length);
        var removed := RemoveFromTree(offset, length);
      }
    }

    /**
     `_pick_block_fits`: the shortest free range that holds an aligned block of
     `size`.  It misses exactly when none of the ranges it looks at does: those too
     short, and as many after them as the search limit allows.
     */
    method PickBlockFits(size: nat, align: nat) returns (r: Option<nat>)
      requires Valid() && 0 < align && 0 < size
      ensures r.Some? ==> BestAt(bySize, size, align, r.value)
      ensures r.None? <==> Missed(bySize, size, align, maxSearchCount)
    {
      r := SearchBestFit(bySize, size, align, maxSearchCount);
    }

    /** `_pick_block_after`: the first fitting range from the cursor on, wrapping around; moves the cursor. */
    method PickBlockAfter(slot: nat, size: nat, align: nat) returns (r: Option<nat>)
      requires Valid() && 0 < align
      modifies `lbas
      ensures r.Some? ==> FirstFrom(ranges, Cursor(old(lbas), slot), size, align, r.value)
      ensures lbas == if r.Some? then old(lbas)[slot := r.value + size] else old(lbas)
    {
      var cursor := if slot in lbas then lbas[slot] else 0;
      var first := LowerBound(cursor);
      var hit, cut, k := FirstFit(ranges, first, |ranges|, size, align);
      if hit {
        FirstAhead(ranges, cursor, first, k, size, align);
      } else {
        if cut || cursor == 0 {
          return None;
        }
        hit, cut, k := FirstFit(ranges, 0, first, size, align);
        if !hit {
          return None;
        }
        FirstAround(ranges, cursor, first, k, size, align);
      }
      var offset := P2RoundUp(ranges[k].start, align);
      lbas := lbas[slot := offset + size];
      return Some(offset);
    }

    /** The halving loop of `_allocate_single`: it misses exactly when each size it tries is missed. */
    method PickHalving(size0: nat, unit: nat) returns (r: Option<nat>, size: nat)
      requires Valid() && 0 < unit && 0 < size0
      ensures size <= size0 && (r.Some? ==> 0 < size)
      ensures size0 % unit == 0 ==> size % unit == 0
      ensures r.Some? ==> BestAt(bySize, size, unit, r.value) && size == FirstHit(bySize, size0, unit, maxSearchCount)
      ensures r.Some? ==> Holds(ranges, size, unit, r.value)
      ensures r.None? <==> MissedAll(bySize, size0, unit, maxSearchCount)
      ensures !Missed(bySize, size0, unit, maxSearchCount) ==> size == size0
    {
      size := size0;
      while true
        invariant 0 < size <= size0
        invariant size0 % unit == 0 ==> size % unit == 0
        invariant MissedAll(bySize, size0, unit, maxSearchCount) <==> MissedAll(bySize, size, unit, maxSearchCount)
        invariant FirstHit(bySize, size0, unit, maxSearchCount) == FirstHit(bySize, size, unit, maxSearchCount)
        invariant size == size0 || Missed(bySize, size0, unit, maxSearchCount)
        decreases size
      {
        r := PickBlockFits(size, unit);
        if r.Some? {
          BestHolds(ranges, bySize, size, unit, r.value);
          return;
        }
        size := P2Align(size / 2, unit);
        if size < unit {
          return;
        }
      }
    }

    /** `_allocate_single`: one free block of at most `want` bytes, or none. */
    method AllocateSingle(want: nat, unit: nat) returns (ok: bool, offset: nat, length: nat)
      requires Valid() && 0 < unit && 0 < want
      modifies `ranges, `bySize, `numFree, `lbas
      ensures Valid()
      ensures !ok ==> ranges == old(ranges) && bySize == old(bySize) && numFree == old(numFree)
      ensures !ok ==> Exhausted(old(bySize), want, unit, maxSearchCount)
      ensures Scarce(old(bySize), old(numFree), deviceSize, want) ==> (ok <==> !Exhausted(old(bySize), want, unit, maxSearchCount))
      ensures Ready(old(bySize), want, unit, maxSearchCount) ==> ok && length == want
      ensures ok ==> offset % unit == 0 && 0 < length <= want && (want % unit == 0 ==> length % unit == 0)
      ensures ok ==> Within(old(ranges), offset, length)
      ensures lbas == old(lbas) || (ok && length == want && lbas == old(lbas)[Ctz(want) := offset + length])
      ensures ok ==> Chosen(old(bySize), old(ranges), Cursor(old(lbas), Ctz(want)), want, unit, maxSearchCount,
                            Scarce(old(bySize), old(numFree), deviceSize, want), offset, length)
      ensures ok ==> Without(old(ranges), ranges, offset, length) && numFree == old(numFree) - length
    {
      var start, size := PickSingle(want, unit);
      if start.None? {
        return false, 0, 0;
      }
      ghost var k :| 0 <= k < |ranges| && Fits(ranges[k], size, unit) && start.value == P2RoundUp(ranges[k].start, unit);
      var removed := RemoveFromTree(start.value, size);
      return true, start.value, size;
    }

    /** The choice of a block in `_allocate_single`: first fit from the cursor if space is ample, else best fit. */
    method PickSingle(want: nat, unit: nat) returns (start: Option<nat>, size: nat)
      requires Valid() && 0 < unit && 0 < want
      modifies `lbas
      ensures start.None? ==> Exhausted(bySize, want, unit, maxSearchCount)
      ensures Scarce(bySize, numFree, deviceSize, want) ==> (start.None? <==> Exhausted(bySize, want, unit, maxSearchCount))
      ensures Ready(bySize, want, unit, maxSearchCount) ==> start.Some? && size == want
      ensures start.Some? ==> 0 < size <= want && (want % unit == 0 ==> size % unit == 0)
      ensures start.Some? ==> Holds(ranges, size, unit, start.value)
      ensures lbas == old(lbas) || (start.Some? && size == want && lbas == old(lbas)[Ctz(want) := start.value + size])
      ensures start.Some? ==> Chosen(bySize, ranges, Cursor(old(lbas), Ctz(want)), want, unit, maxSearchCount,
                                     Scarce(bySize, numFree, deviceSize, want), start.value, size)
    {
      var maxSize := if bySize == [] then 0 else bySize[|bySize| - 1].Length();
      assert bySize != [] ==> bySize[|bySize| - 1] in ranges;
      size := want;
      start := None;
      var force := false;
      if maxSize < size {
        if maxSize < unit {
          return;
        }
        size := P2Align(maxSize, unit);
        force := true;
      }
      var freePct := numFree * 100 / deviceSize;
      if !(force || maxSize < 128 * 1024 || freePct < 4) {
        start := PickBlockAfter(Ctz(size), size, unit);
      }
      if start.None? {
        start, size := PickHalving(size, unit);
      }
    }

    /** `_allocate`: blocks of at most `cap` bytes until `want` is reached or a search misses. */
    method AllocateLoop(want: nat, unit: nat, cap: nat) returns (total: nat, es: seq<PExtent>)
      requires Valid() && 0 < unit && (0 < want ==> 0 < cap)
      modifies `ranges, `bySize, `numFree, `lbas
      ensures Valid() && numFree == old(numFree) - total
      ensures Taken(old(ranges), ranges, es) && SoFar(es, total, want, unit, cap)
      ensures total < want ==> Nothing(bySize, Min(cap, want - total), unit, maxSearchCount)
      ensures es == [] ==> bySize == old(bySize)
      ensures AllPicks(old(ranges), old(numFree), es, want, unit, cap, maxSearchCount, deviceSize)
    {
      total, es := 0, [];
      while total < want
        invariant Valid() && numFree == old(numFree) - total && 0 < unit && (0 < want ==> 0 < cap)
        invariant Progressed(old(ranges), ranges, old(numFree), es, total, want, unit, cap, maxSearchCount, deviceSize)
        invariant es == [] ==> bySize == old(bySize)
        decreases want - total
      {
        var ok, e := AllocateRound(total, want, unit, cap, old(ranges), old(numFree), es);
        if !ok {
          return;
        }
        es := es + [e];
        total := total + e.length;
      }
    }

    /** One round of the loop. */
    method AllocateRound(total: nat, want: nat, unit: nat, cap: nat, ghost was: seq<Seg>, ghost free: nat, ghost es: seq<PExtent>)
        returns (ok: bool, e: PExtent)
      requires Valid() && 0 < unit && 0 < cap && total < want && numFree == free - total
      requires Progressed(was, ranges, free, es, total, want, unit, cap, maxSearchCount, deviceSize)
      modifies `ranges, `bySize, `numFree, `lbas
      ensures Valid()
      ensures !ok ==> ranges == old(ranges) && bySize == old(bySize) && numFree == old(numFree)
                      && Nothing(bySize, Min(cap, want - total), unit, maxSearchCount)
      ensures ok ==> 0 < e.length <= want - total && numFree == old(numFree) - e.length
                     && Progressed(was, ranges, free, es + [e], total + e.length, want, unit, cap, maxSearchCount, deviceSize)
    {
      ghost var left, index := ranges, bySize;
      ok, e := AllocateNext(Min(cap, want - total), unit, was, es);
      if ok {
        SoFarMore(es, total, e, want, unit, cap);
        OneMorePick(was, free, es, e, want, unit, cap, maxSearchCount, deviceSize, left, index);
      }
    }

    /** Its choice of a block. */
    method AllocateNext(chunk: nat, unit: nat, ghost was: seq<Seg>, ghost es: seq<PExtent>) returns (ok: bool, e: PExtent)
      requires Valid() && 0 < unit && 0 < chunk && Taken(was, ranges, es)
      requires forall i :: 0 <= i < |es| ==> 0 < es[i].length
      modifies `ranges, `bySize, `numFree, `lbas
      ensures Valid()
      ensures !ok ==> ranges == old(ranges) && bySize == old(bySize) && numFree == old(numFree)
                      && Exhausted(bySize, chunk, unit, maxSearchCount)
      ensures ok ==> Taken(was, ranges, es + [e]) && numFree == old(numFree) - e.length
      ensures ok ==> e.offset % unit == 0 && 0 < e.length <= chunk && (chunk % unit == 0 ==> e.length % unit == 0)
      ensures ok ==> FirstBlock(old(bySize), e, chunk, unit, maxSearchCount, Scarce(old(bySize), old(numFree), deviceSize, chunk))
      ensures !ok ==> !Ready(bySize, chunk, unit, maxSearchCount)
    {
      var offset, length;
      ok, offset, length := AllocateSingle(chunk, unit);
      e := PExtent(offset, length);
      if ok {
        TakenMore(was, old(ranges), ranges, es, e);
      }
    }

    /**
     `allocate`: pairwise disjoint free blocks, aligned to `unit`, no longer than the
     cap and together at most `want`; exactly they stop being free.  If it falls
     short, every search for the rest was missed; the lengths are multiples of
     `unit` when the request fits the cap or the cap is one.
     */
    method Allocate(want: nat, unit: nat, maxAlloc: nat) returns (r: int, es: seq<PExtent>)
      requires Valid() && 0 < unit && want % unit == 0
      requires 0 < want ==> 0 < EffectiveCap(want, maxAlloc, blockSize)
      modifies `ranges, `bySize, `numFree, `lbas
      ensures Valid() && Bytes(es) <= want && numFree == old(numFree) - Bytes(es)
      ensures r == if es == [] then NoSpace else Bytes(es)
      ensures Taken(old(ranges), ranges, es)
      ensures var cap := EffectiveCap(want, maxAlloc, blockSize);
              && Blocks(es, unit, cap)
              && (Even(want, unit, cap) ==> Units(es, unit))
              && (Bytes(es) < want ==> Exhausted(bySize, Min(cap, want - Bytes(es)), unit, maxSearchCount))
              && (Bytes(es) < want && Even(want, unit, cap) ==> Missed(bySize, unit, unit, maxSearchCount))
              && (0 < want && es == [] ==> Nothing(old(bySize), Min(cap, want), unit, maxSearchCount))
              && AllPicks(old(ranges), old(numFree), es, want, unit, cap, maxSearchCount, deviceSize)
    {
      var total;
      ghost var cap := EffectiveCap(want, maxAlloc, blockSize);
      total, es := AllocateLoop(want, unit, EffectiveCap(want, maxAlloc, blockSize));
      if total < want && Even(want, unit, cap) {
        EvenStep(es, total, want, unit, cap);
        ExhaustedUnit(bySize, Min(cap, want - total), unit, maxSearchCount);
      }
      r := if total != 0 then total else NoSpace;
    }

    /** `_release`: give back every range of the interval set. */
    method ReleaseSet(set_: seq<Seg>)
      requires Valid() && Canonical(set_)
      requires forall x: nat :: Has(set_, x) ==> !Has(ranges, x)
      modifies `ranges, `bySize, `numFree
      ensures Valid()
      ensures forall x: nat :: Has(ranges, x) <==> Has(old(ranges), x) || Has(set_, x)
    {
      var i := 0;
      while i < |set_|
        invariant 0 <= i <= |set_| && Valid()
        invariant forall x: nat :: Has(ranges, x) <==> Has(old(ranges), x) || Has(set_[..i], x)
      {
        var s := set_[i];
        forall x: nat | s.start <= x < s.end ensures !Has(ranges, x) && Has(set_, x) {
          ApartFrom(set_, i, x);
        }
        AddToTree(s.start, s.end - s.start);
        assert set_[..i + 1] == set_[..i] + [s];
        forall x: nat ensures Has(set_[..i + 1], x) <==> Has(set_[..i], x) || s.start <= x < s.end {
          HasConcat(set_[..i], [s], x);
          HasOne(s, x);
        }
        i := i + 1;
      }
      assert set_[..i] == set_;
    }

    /** `Allocator::release`: collect the blocks in an interval set, in the order given, and release it. */
    method Release(es: seq<PExtent>)
      requires Valid() && Disjoint(es) && forall i :: 0 <= i < |es| ==> 0 < es[i].length
      requires forall x: nat :: InExtents(es, x) ==> !Has(ranges, x)
      modifies `ranges, `bySize, `numFree
      ensures Valid()
      ensures forall x: nat :: Has(ranges, x) <==> Has(old(ranges), x) || InExtents(es, x)
    {
      var set_ := Collect(es);
      ReleaseSet(set_);
    }
  }

  datatype PExtent = PExtent(offset: nat, length: nat)

  predicate Fits(s: Seg, size: nat, align: nat)
    requires 0 < align
  {
    P2RoundUp(s.start, align) + size <= s.end
  }

  /** Range `j` of the size index fits, and no shorter one does. */
  ghost predicate BestFit(q: seq<Seg>, j: nat, size: nat, align: nat)
    requires j < |q| && 0 < align
  {
    Fits(q[j], size, align) && NoneFits(q[..j], size, align)
  }

  /** No range of `q` holds an aligned block of `size`. */
  ghost predicate NoneFits(q: seq<Seg>, size: nat, align: nat)
    requires 0 < align
  {
    forall i :: 0 <= i < |q| ==> !Fits(q[i], size, align)
  }

  /** One pass of the first-fit search; a cutoff may end it early. */
  method FirstFit(rs: seq<Seg>, lo: nat, hi: nat, size: nat, align: nat) returns (hit: bool, cut: bool, k: nat)
    requires 0 < align && lo <= hi <= |rs|
    ensures hit ==> lo <= k < hi && Fits(rs[k], size, align) && forall i :: lo <= i < k ==> !Fits(rs[i], size, align)
    ensures !hit && !cut ==> forall i :: lo <= i < hi ==> !Fits(rs[i], size, align)
  {
    k := lo;
    while k < hi
      invariant lo <= k <= hi && forall i :: lo <= i < k ==> !Fits(rs[i], size, align)
    {
      if P2RoundUp(rs[k].start, align) + size <= rs[k].end {
        return true, false, k;
      }
      if * {
        return false, true, k;
      }
      k := k + 1;
    }
    return false, false, k;
  }

  /** `start` is where the aligned block lies in the best-fitting range. */
  ghost predicate BestAt(q: seq<Seg>, size: nat, align: nat, start: nat)
    requires 0 < align
  {
    exists j :: 0 <= j < |q| && BestFit(q, j, size, align) && start == P2RoundUp(q[j].start, align)
  }

  /** `start` is where an aligned block lies in some range. */
  ghost predicate Holds(rs: seq<Seg>, size: nat, align: nat, start: nat)
    requires 0 < align
  {
    exists k :: 0 <= k < |rs| && Fits(rs[k], size, align) && start == P2RoundUp(rs[k].start, align)
  }

  lemma BestHolds(rs: seq<Seg>, q: seq<Seg>, size: nat, align: nat, start: nat)
    requires 0 < align && BestAt(q, size, align, start) && forall s :: s in q <==> s in rs
    ensures Holds(rs, size, align, start)
  {
    var j :| 0 <= j < |q| && BestFit(q, j, size, align) && start == P2RoundUp(q[j].start, align);
    assert q[j] in rs;
  }

  function Cursor(lbas: map<nat, nat>, slot: nat): nat {
    if slot in lbas then lbas[slot] else 0
  }

  /** Range `k` comes before range `i` in a search that starts at the cursor and wraps around. */
  predicate Sooner(rs: seq<Seg>, cursor: nat, i: nat, k: nat)
    requires i < |rs| && k < |rs|
  {
    if (cursor < rs[i].end) == (cursor < rs[k].end) then i < k else cursor < rs[i].end
  }

  ghost predicate FirstFromAt(rs: seq<Seg>, cursor: nat, k: nat, size: nat, align: nat)
    requires k < |rs| && 0 < align
  {
    Fits(rs[k], size, align) && forall i :: 0 <= i < |rs| && Sooner(rs, cursor, i, k) ==> !Fits(rs[i], size, align)
  }

  /** `start` is where the aligned block lies in the first range that holds one, from the cursor on and wrapping around. */
  ghost predicate FirstFrom(rs: seq<Seg>, cursor: nat, size: nat, align: nat, start: nat)
    requires 0 < align
  {
    exists k :: 0 <= k < |rs| && FirstFromAt(rs, cursor, k, size, align) && start == P2RoundUp(rs[k].start, align)
  }

  lemma FirstAhead(rs: seq<Seg>, cursor: nat, first: nat, k: nat, size: nat, align: nat)
    requires 0 < align && Canonical(rs) && first <= k < |rs| && Fits(rs[k], size, align)
    requires forall i :: first <= i < k ==> !Fits(rs[i], size, align)
    requires (forall i :: 0 <= i < first ==> rs[i].end <= cursor) && cursor < rs[first].end
    ensures FirstFrom(rs, cursor, size, align, P2RoundUp(rs[k].start, align))
  {
    forall i | 0 <= i < |rs| && Sooner(rs, cursor, i, k) ensures !Fits(rs[i], size, align) {
      assert cursor < rs[k].end;
    }
    assert FirstFromAt(rs, cursor, k, size, align);
  }

  lemma FirstAround(rs: seq<Seg>, cursor: nat, first: nat, k: nat, size: nat, align: nat)
    requires 0 < align && k < first <= |rs| && Fits(rs[k], size, align)
    requires forall i :: (first <= i < |rs| || 0 <= i < k) ==> !Fits(rs[i], size, align)
    requires forall i :: 0 <= i < first ==> rs[i].end <= cursor
    ensures FirstFrom(rs, cursor, size, align, P2RoundUp(rs[k].start, align))
  {
    assert FirstFromAt(rs, cursor, k, size, align);
  }

  /** Its loop over the size index `q`. */
  method SearchBestFit(q: seq<Seg>, size: nat, align: nat, limit: nat) returns (r: Option<nat>)
    requires 0 < align
    ensures r.Some? ==> BestAt(q, size, align, r.value)
    ensures r.None? <==> Missed(q, size, align, limit)
  {
    var j: nat, searchCount: nat := 0, 0;
    while j < |q| && q[j].Length() < size
      invariant j <= |q|
      invariant forall i :: 0 <= i < j ==> q[i].Length() < size
    {
      j := j + 1;
    }
    ghost var first := j;
    ShortMiss(q, j, size, align);
    while j < |q|
      invariant first <= j <= |q| && first == FirstLong(q, size) && searchCount == j - first
      invariant limit == 0 || searchCount <= limit
      invariant NoneFits(q[..j], size, align)
    {
      searchCount := searchCount + 1;
      if 0 < limit && limit < searchCount {
        return None;
      }
      var offset := P2RoundUp(q[j].start, align);
      if offset + size <= q[j].end {
        Hit(q, j, size, align, limit);
        return Some(offset);
      }
      OneMoreMiss(q, j, size, align);
      j := j + 1;
    }
    return None;
  }

  /** The first range of the size index that is long enough. */
  function FirstLong(q: seq<Seg>, size: nat): (k: nat)
    ensures k <= |q| && (forall i :: 0 <= i < k ==> q[i].Length() < size)
    ensures k < |q| ==> size <= q[k].Length()
  {
    if q == [] || size <= q[0].Length() then 0 else 1 + FirstLong(q[1..], size)
  }

  /** How many ranges of the size index a search covers: those too short, and `limit` more, or all. */
  function Searched(q: seq<Seg>, size: nat, limit: nat): (n: nat)
    ensures n <= |q|
  {
    var first := FirstLong(q, size);
    if limit == 0 || |q| <= first + limit then |q| else first + limit
  }

  lemma Hit(q: seq<Seg>, j: nat, size: nat, align: nat, limit: nat)
    requires 0 < align && j < |q| && Fits(q[j], size, align) && NoneFits(q[..j], size, align)
    requires FirstLong(q, size) <= j && (limit == 0 || j < FirstLong(q, size) + limit)
    ensures BestFit(q, j, size, align) && !Missed(q, size, align, limit)
  {
    assert q[..Searched(q, size, limit)][j] == q[j];
  }

  lemma OneMoreMiss(q: seq<Seg>, j: nat, size: nat, align: nat)
    requires 0 < align && j < |q| && !Fits(q[j], size, align) && NoneFits(q[..j], size, align)
    ensures NoneFits(q[..j + 1], size, align)
  {
    assert q[..j + 1] == q[..j] + [q[j]];
  }

  /** Ranges too short hold no block. */
  lemma ShortMiss(q: seq<Seg>, j: nat, size: nat, align: nat)
    requires 0 < align && j <= |q| && (forall i :: 0 <= i < j ==> q[i].Length() < size)
    requires j < |q| ==> size <= q[j].Length()
    ensures NoneFits(q[..j], size, align) && FirstLong(q, size) == j
  {
  }

  /** A best-fit search for `size` finds nothing. */
  ghost predicate Missed(q: seq<Seg>, size: nat, align: nat, limit: nat)
    requires 0 < align
  {
    NoneFits(q[..Searched(q, size, limit)], size, align)
  }

  /** Nor do the searches for its halves, rounded down to units. */
  ghost predicate MissedAll(q: seq<Seg>, size: nat, unit: nat, limit: nat)
    requires 0 < unit && 0 < size
    decreases size
  {
    Missed(q, size, unit, limit)
    && (P2Align(size / 2, unit) < unit || MissedAll(q, P2Align(size / 2, unit), unit, limit))
  }

  /** The first of these sizes whose search finds a block. */
  ghost function FirstHit(q: seq<Seg>, size: nat, unit: nat, limit: nat): nat
    requires 0 < unit && 0 < size
    decreases size
  {
    if !Missed(q, size, unit, limit) then size
    else if P2Align(size / 2, unit) < unit then 0
    else FirstHit(q, P2Align(size / 2, unit), unit, limit)
  }

  /** The best-fit choice for a request of `want`: the first hit, from the longest range down if that is too short. */
  ghost predicate BestFirst(q: seq<Seg>, want: nat, unit: nat, limit: nat, start: nat, size: nat)
    requires 0 < unit && 0 < want
  {
    && BestAt(q, size, unit, start)
    && (want <= Longest(q) ==> size == FirstHit(q, want, unit, limit))
    && (Longest(q) < want ==> unit <= Longest(q) && size == FirstHit(q, P2Align(Longest(q), unit), unit, limit))
  }

  /** The block at `start`: by best fit, or, when space is ample, by first fit for all that is wanted. */
  ghost predicate Chosen(q: seq<Seg>, rs: seq<Seg>, cursor: nat, want: nat, unit: nat, limit: nat, scarce: bool, start: nat, size: nat)
    requires 0 < unit && 0 < want
  {
    BestFirst(q, want, unit, limit, start, size) || (!scarce && size == want && FirstFrom(rs, cursor, want, unit, start))
  }

  function Longest(q: seq<Seg>): int {
    if q == [] then 0 else q[|q| - 1].Length()
  }

  /** Everything that `_allocate_single` tries by best fit for a request of `want` is missed. */
  ghost predicate Exhausted(q: seq<Seg>, want: nat, unit: nat, limit: nat)
    requires 0 < unit && 0 < want
  {
    if want <= Longest(q) then MissedAll(q, want, unit, limit)
    else Longest(q) < unit || MissedAll(q, P2Align(Longest(q), unit), unit, limit)
  }

  /** The first-fit search is skipped: a block as long as wanted, or ample space, is lacking. */
  ghost predicate Scarce(q: seq<Seg>, free: nat, deviceSize: nat, want: nat)
    requires 0 < deviceSize
  {
    Longest(q) < want || Longest(q) < 128 * 1024 || free * 100 / deviceSize < 4
  }

  /** The first search for `want` finds a block. */
  ghost predicate Ready(q: seq<Seg>, want: nat, unit: nat, limit: nat)
    requires 0 < unit
  {
    want <= Longest(q) && !Missed(q, want, unit, limit)
  }

  /** What the size index `q` says about a block `e` taken from it for a request of `want`. */
  ghost predicate FirstBlock(q: seq<Seg>, e: PExtent, want: nat, unit: nat, limit: nat, scarce: bool)
    requires 0 < unit && 0 < want
  {
    && (Ready(q, want, unit, limit) ==> e.length == want)
    && (scarce ==> !Exhausted(q, want, unit, limit) && BestFirst(q, want, unit, limit, e.offset, e.length))
  }

  /** There is no block for it. */
  ghost predicate Nothing(q: seq<Seg>, want: nat, unit: nat, limit: nat)
    requires 0 < unit && 0 < want
  {
    Exhausted(q, want, unit, limit) && !Ready(q, want, unit, limit)
  }

  /**
   Block `i` of the request is what the free ranges that the blocks before it left
   say about it.
   */
  ghost predicate Picks(was: seq<Seg>, free: nat, es: seq<PExtent>, i: nat, want: nat, unit: nat, cap: nat, limit: nat, deviceSize: nat)
    requires 0 < unit && 0 < cap && 0 < deviceSize && i < |es|
  {
    && Bytes(es[..i]) < want && Bytes(es[..i]) <= free
    && var chunk, left := Min(cap, want - Bytes(es[..i])), free - Bytes(es[..i]);
       exists rs, q :: Canonical(rs) && Taken(was, rs, es[..i]) && Indexed(rs, q, left)
                       && FirstBlock(q, es[i], chunk, unit, limit, Scarce(q, left, deviceSize, chunk))
  }

  ghost predicate AllPicks(was: seq<Seg>, free: nat, es: seq<PExtent>, want: nat, unit: nat, cap: nat, limit: nat, deviceSize: nat)
    requires 0 < unit && (0 < want ==> 0 < cap) && 0 < deviceSize
  {
    0 < want ==> forall i :: 0 <= i < |es| ==> Picks(was, free, es, i, want, unit, cap, limit, deviceSize)
  }

  /** The first block, from the free ranges as they were. */
  lemma FirstPick(was: seq<Seg>, q0: seq<Seg>, free: nat, es: seq<PExtent>, want: nat, unit: nat, cap: nat, limit: nat, deviceSize: nat)
    requires 0 < unit && 0 < cap && 0 < want && 0 < deviceSize && es != [] && Canonical(was) && Indexed(was, q0, free)
    requires Picks(was, free, es, 0, want, unit, cap, limit, deviceSize)
    ensures FirstBlock(q0, es[0], Min(cap, want), unit, limit, Scarce(q0, free, deviceSize, Min(cap, want)))
  {
    assert es[..0] == [];
    var rs, q :| Canonical(rs) && Taken(was, rs, es[..0]) && Indexed(rs, q, free)
                 && FirstBlock(q, es[0], Min(cap, want), unit, limit, Scarce(q, free, deviceSize, Min(cap, want)));
    NothingTaken(was, rs);
    SizeIndexUnique(q, q0);
  }

  lemma OneMorePick(was: seq<Seg>, free: nat, es: seq<PExtent>, e: PExtent, want: nat, unit: nat, cap: nat, limit: nat, deviceSize: nat,
                    rs: seq<Seg>, q: seq<Seg>)
    requires 0 < unit && 0 < cap && 0 < deviceSize && AllPicks(was, free, es, want, unit, cap, limit, deviceSize)
    requires Bytes(es) < want && Bytes(es) <= free && Canonical(rs) && Taken(was, rs, es) && Indexed(rs, q, free - Bytes(es))
    requires var chunk := Min(cap, want - Bytes(es));
             FirstBlock(q, e, chunk, unit, limit, Scarce(q, free - Bytes(es), deviceSize, chunk))
    ensures AllPicks(was, free, es + [e], want, unit, cap, limit, deviceSize)
  {
    forall i | 0 <= i < |es + [e]| ensures Picks(was, free, es + [e], i, want, unit, cap, limit, deviceSize) {
      if i < |es| {
        assert Picks(was, free, es, i, want, unit, cap, limit, deviceSize);
        SamePick(was, free, es, es + [e], i, want, unit, cap, limit, deviceSize);
      } else {
        LastPick(was, free, es, es + [e], want, unit, cap, limit, deviceSize, rs, q);
      }
    }
  }

  lemma SamePick(was: seq<Seg>, free: nat, es: seq<PExtent>, es': seq<PExtent>, i: nat, want: nat, unit: nat, cap: nat, limit: nat,
                 deviceSize: nat)
    requires 0 < unit && 0 < cap && 0 < deviceSize && i < |es| <= |es'| && es'[..|es|] == es
    requires Picks(was, free, es, i, want, unit, cap, limit, deviceSize)
    ensures Picks(was, free, es', i, want, unit, cap, limit, deviceSize)
  {
    assert es'[..i] == es[..i] && es'[i] == es[i];
  }

  lemma LastPick(was: seq<Seg>, free: nat, es: seq<PExtent>, es': seq<PExtent>, want: nat, unit: nat, cap: nat, limit: nat,
                 deviceSize: nat, rs: seq<Seg>, q: seq<Seg>)
    requires 0 < unit && 0 < cap && 0 < deviceSize && |es'| == |es| + 1 && es'[..|es|] == es
    requires Bytes(es) < want && Bytes(es) <= free && Canonical(rs) && Taken(was, rs, es) && Indexed(rs, q, free - Bytes(es))
    requires var chunk := Min(cap, want - Bytes(es));
             FirstBlock(q, es'[|es|], chunk, unit, limit, Scarce(q, free - Bytes(es), deviceSize, chunk))
    ensures Picks(was, free, es', |es|, want, unit, cap, limit, deviceSize)
  {
  }

  /** The blocks of an unfinished request. */
  ghost predicate SoFar(es: seq<PExtent>, total: nat, want: nat, unit: nat, cap: nat)
    requires 0 < unit
  {
    && total == Bytes(es) <= want && Blocks(es, unit, cap)
    && (Even(want, unit, cap) ==> Units(es, unit) && total % unit == 0)
  }

  /** The blocks of an unfinished request, and what they have left free. */
  ghost predicate Progressed(was: seq<Seg>, rs: seq<Seg>, free: nat, es: seq<PExtent>, total: nat, want: nat, unit: nat, cap: nat,
                             limit: nat, deviceSize: nat)
    requires 0 < unit && (0 < want ==> 0 < cap) && 0 < deviceSize
  {
    Taken(was, rs, es) && SoFar(es, total, want, unit, cap) && AllPicks(was, free, es, want, unit, cap, limit, deviceSize)
  }

  lemma EvenStep(es: seq<PExtent>, total: nat, want: nat, unit: nat, cap: nat)
    requires 0 < unit && total < want && SoFar(es, total, want, unit, cap)
    ensures Even(want, unit, cap) ==> Min(cap, want - total) % unit == 0
  {
    if Even(want, unit, cap) {
      MultipleSum(want, total, unit);
    }
  }

  lemma SoFarMore(es: seq<PExtent>, total: nat, e: PExtent, want: nat, unit: nat, cap: nat)
    requires 0 < unit && total < want && SoFar(es, total, want, unit, cap)
    requires e.offset % unit == 0 && 0 < e.length <= Min(cap, want - total)
    requires Min(cap, want - total) % unit == 0 ==> e.length % unit == 0
    ensures SoFar(es + [e], total + e.length, want, unit, cap)
  {
    EvenStep(es, total, want, unit, cap);
    BytesMore(es, e);
    if Even(want, unit, cap) {
      MultipleSum(total, e.length, unit);
    }
  }

  /** The halves of a unit multiple get down to one unit. */
  lemma {:induction false} MissedUnit(q: seq<Seg>, size: nat, unit: nat, limit: nat)
    requires 0 < unit && 0 < size && size % unit == 0 && MissedAll(q, size, unit, limit)
    ensures Missed(q, unit, unit, limit)
    decreases size
  {
    if P2Align(size / 2, unit) < unit {
      OneUnit(size, unit);
    } else {
      MissedUnit(q, P2Align(size / 2, unit), unit, limit);
    }
  }

  lemma ExhaustedUnit(q: seq<Seg>, want: nat, unit: nat, limit: nat)
    requires 0 < unit && 0 < want && want % unit == 0 && SizeSorted(q) && Exhausted(q, want, unit, limit)
    ensures Missed(q, unit, unit, limit)
  {
    if want <= Longest(q) {
      MissedUnit(q, want, unit, limit);
    } else if Longest(q) < unit {
      TooShort(q, unit, unit);
    } else {
      MissedUnit(q, P2Align(Longest(q), unit), unit, limit);
    }
  }

  /** Without a limit, or with few enough ranges, a missed unit means that no aligned unit is free. */
  lemma MissedMeansNone(rs: seq<Seg>, q: seq<Seg>, unit: nat, limit: nat)
    requires 0 < unit && Missed(q, unit, unit, limit) && (forall s :: s in q <==> s in rs)
    requires limit == 0 || |q| <= FirstLong(q, unit) + limit
    ensures NoneFits(rs, unit, unit)
  {
    assert q[..|q|] == q;
    forall i | 0 <= i < |rs| ensures !Fits(rs[i], unit, unit) {
      assert rs[i] in q;
    }
  }

  /** Ranges shorter than the block hold none; the last of the size index is the longest. */
  lemma TooShort(q: seq<Seg>, size: nat, align: nat)
    requires 0 < align && SizeSorted(q) && (q != [] ==> q[|q| - 1].Length() < size)
    ensures NoneFits(q, size, align)
  {
    forall i | 0 <= i < |q| ensures !Fits(q[i], size, align) {
      assert i == |q| - 1 || Shorter(q[i], q[|q| - 1]);
    }
  }

  /** All of `offset..offset + length` is free. */
  ghost predicate Within(rs: seq<Seg>, offset: nat, length: nat) {
    forall x: nat :: offset <= x < offset + length ==> Has(rs, x)
  }

  /** `rs'` covers what `rs` does, except `offset..offset + length`. */
  ghost predicate Without(rs: seq<Seg>, rs': seq<Seg>, offset: nat, length: nat) {
    forall x: nat :: Has(rs', x) <==> Has(rs, x) && !(offset <= x < offset + length)
  }

  lemma EndIsNotFree(rs: seq<Seg>, k: nat)
    requires Canonical(rs) && k < |rs|
    ensures !Has(rs, rs[k].end)
  {
    forall j | 0 <= j < |rs| ensures !(rs[j].start <= rs[k].end < rs[j].end) {
      assert j < k ==> rs[j].end < rs[k].start;
      assert k < j ==> rs[k].end < rs[j].start;
    }
  }

  /** In coalesced form, bytes are all free exactly when one range holds them. */
  lemma WithinOneRange(rs: seq<Seg>, offset: nat, length: nat)
    requires Canonical(rs) && 0 < length
    ensures Within(rs, offset, length) <==> exists k :: 0 <= k < |rs| && rs[k].start <= offset && offset + length <= rs[k].end
  {
    if Within(rs, offset, length) {
      assert Has(rs, offset);
      var k :| 0 <= k < |rs| && rs[k].start <= offset < rs[k].end;
      EndIsNotFree(rs, k);
    }
  }

  /** `-ENOSPC`. */
  const NoSpace: int := -28

  /** Nonempty blocks at multiples of `unit`, none longer than `cap`. */
  ghost predicate Blocks(es: seq<PExtent>, unit: nat, cap: nat)
    requires 0 < unit
  {
    forall i :: 0 <= i < |es| ==> es[i].offset % unit == 0 && 0 < es[i].length <= cap
  }

  ghost predicate Units(es: seq<PExtent>, unit: nat)
    requires 0 < unit
  {
    forall i :: 0 <= i < |es| ==> es[i].length % unit == 0
  }

  function Min(a: nat, b: nat): nat {
    if a < b then a else b
  }

  /** Every chunk of the request is a multiple of the unit. */
  predicate Even(want: nat, unit: nat, cap: nat)
    requires 0 < unit
  {
    want % unit == 0 && (want <= cap || cap % unit == 0)
  }

  /** A multiple of the unit whose half is below it is the unit. */
  lemma OneUnit(size: nat, unit: nat)
    requires 0 < unit && 0 < size && size % unit == 0 && P2Align(size / 2, unit) < unit
    ensures size == unit
  {
    MultipleAtLeast(size, unit);
    DivUnique(unit, unit, 1, 0);
    MultipleSum(size, unit, unit);
    var low := P2Align(size / 2, unit);
    if 0 < low {
      MultipleAtLeast(low, unit);
      assert false;
    }
    if unit < size {
      MultipleAtLeast(size - unit, unit);
      assert false;
    }
  }

  /** The cap after defaulting and clamping to 32-bit lengths. */
  function EffectiveCap(want: nat, maxAlloc: nat, blockSize: nat): nat
    requires 0 < blockSize
  {
    var m := if maxAlloc == 0 then want else maxAlloc;
    if 0xffff_ffff <= m then P2Align(0xffff_ffff, blockSize) else m
  }

  /** The cap is what the caller asked for, unless that does not fit a 32-bit length: then the largest number of blocks that does. */
  lemma CapFits(want: nat, maxAlloc: nat, blockSize: nat)
    requires 0 < blockSize
    ensures var cap := EffectiveCap(want, maxAlloc, blockSize);
            && cap < 0x1_0000_0000 && (maxAlloc != 0 ==> cap <= maxAlloc)
            && (maxAlloc == 0 && want < 0xffff_ffff ==> cap == want)
            && (0 < maxAlloc < 0xffff_ffff ==> cap == maxAlloc)
            && ((if maxAlloc == 0 then want else maxAlloc) >= 0xffff_ffff ==>
                  cap % blockSize == 0 && cap <= 0xffff_ffff < cap + blockSize)
  {
  }

  function Bytes(es: seq<PExtent>): nat {
    if es == [] then 0 else es[0].length + Bytes(es[1..])
  }

  lemma {:induction false} BytesMore(es: seq<PExtent>, e: PExtent)
    ensures Bytes(es + [e]) == Bytes(es) + e.length
  {
    if es == [] {
      assert es + [e] == [e] && [e][1..] == [];
    } else {
      assert (es + [e])[1..] == es[1..] + [e];
      BytesMore(es[1..], e);
    }
  }

  ghost predicate InExtents(es: seq<PExtent>, x: nat) {
    exists i :: 0 <= i < |es| && es[i].offset <= x < es[i].offset + es[i].length
  }

  ghost predicate Disjoint(es: seq<PExtent>) {
    forall i, j :: 0 <= i < j < |es| ==>
      es[i].offset + es[i].length <= es[j].offset || es[j].offset + es[j].length <= es[i].offset
  }

  /** The blocks `es` are disjoint, were all free in `rs`, and are exactly what `rs'` lacks. */
  ghost predicate Taken(rs: seq<Seg>, rs': seq<Seg>, es: seq<PExtent>) {
    && Disjoint(es)
    && (forall x: nat :: InExtents(es, x) ==> Has(rs, x))
    && (forall x: nat :: Has(rs', x) <==> Has(rs, x) && !InExtents(es, x))
  }

  lemma InExtentsMore(es: seq<PExtent>, e: PExtent, x: nat)
    ensures InExtents(es + [e], x) <==> InExtents(es, x) || e.offset <= x < e.offset + e.length
  {
    if InExtents(es, x) {
      var i :| 0 <= i < |es| && es[i].offset <= x < es[i].offset + es[i].length;
      assert (es + [e])[i] == es[i];
    }
    assert (es + [e])[|es|] == e;
  }

  lemma TakenMore(rs: seq<Seg>, mid: seq<Seg>, rs': seq<Seg>, es: seq<PExtent>, e: PExtent)
    requires Taken(rs, mid, es) && 0 < e.length
    requires forall i :: 0 <= i < |es| ==> 0 < es[i].length
    requires Within(mid, e.offset, e.length) && Without(mid, rs', e.offset, e.length)
    ensures Taken(rs, rs', es + [e])
  {
    forall x: nat ensures InExtents(es + [e], x) <==> InExtents(es, x) || e.offset <= x < e.offset + e.length {
      InExtentsMore(es, e, x);
    }
    forall i | 0 <= i < |es|
      ensures es[i].offset + es[i].length <= e.offset || e.offset + e.length <= es[i].offset
    {
      var x := if es[i].offset < e.offset then e.offset else es[i].offset;
      if es[i].offset <= x < es[i].offset + es[i].length && x < e.offset + e.length {
        assert InExtents(es, x);
        assert false;
      }
    }
  }

  lemma ApartFrom(rs: seq<Seg>, i: nat, x: nat)
    requires Canonical(rs) && i < |rs| && rs[i].start <= x < rs[i].end
    ensures Has(rs, x) && !Has(rs[..i], x)
  {
  }

  /**
   `interval_set::insert` of a range that overlaps none present: swallow an
   adjacent following range, then an adjacent preceding one.
   */
  method IntervalInsert(m: seq<Seg>, off0: nat, len0: nat) returns (r: seq<Seg>)
    requires Canonical(m)
    requires forall x: nat :: off0 <= x < off0 + len0 ==> !Has(m, x)
    ensures Canonical(r)
    ensures forall x: nat :: Has(r, x) <==> Has(m, x) || off0 <= x < off0 + len0
  {
    if len0 == 0 {
      return m;
    }
    var off, len := off0, len0;
    var k := 0;
    while k < |m| && m[k].start < off
      invariant 0 <= k <= |m|
      invariant forall i :: 0 <= i < k ==> m[i].start < off
    {
      k := k + 1;
    }
    DisjointBefore(m, k, off0, len0);
    var j := k;
    while j < |m| && m[j].start <= off + len
      invariant k <= j <= |m| && 0 < len
      invariant j == k ==> len == len0
      invariant j != k ==> j == k + 1 && m[k].start == off0 + len0 && off + len == m[k].end
    {
      len := if len < m[j].end - off then m[j].end - off else len;
      j := j + 1;
    }
    var i := k;
    if k != 0 && m[k - 1].end >= off {
      len := off + len - m[k - 1].start;
      off := m[k - 1].start;
      i := k - 1;
    }
    r := m[..i] + [Seg(off, off + len)] + m[j..];
    InsertResult(m, k, i, j, off, len, off0, len0);
  }

  /** The new range, with the adjacent ranges `i..j` swallowed. */
  lemma InsertResult(m: seq<Seg>, k: nat, i: nat, j: nat, off: nat, len: nat, off0: nat, len0: nat)
    requires Canonical(m) && 0 < len0 && i <= k <= j <= |m| && k <= i + 1 && j <= k + 1
    requires 0 < k ==> m[k - 1].end <= off0
    requires k < |m| ==> off0 + len0 <= m[k].start
    requires if i < k then m[i].end == off0 && off == m[i].start else off == off0 && (0 < k ==> m[k - 1].end < off0)
    requires if k < j then m[k].start == off0 + len0 && off + len == m[k].end
             else off + len == off0 + len0 && (k < |m| ==> off0 + len0 < m[k].start)
    ensures Canonical(m[..i] + [Seg(off, off + len)] + m[j..])
    ensures forall x: nat :: Has(m[..i] + [Seg(off, off + len)] + m[j..], x) <==> Has(m, x) || off0 <= x < off0 + len0
  {
    Between(m, i, j, Seg(off, off + len));
    forall x: nat ensures Has(m[i..j], x) || off0 <= x < off0 + len0 <==> off <= x < off + len {
      MiddleCover(m, k, i, j, x);
    }
    Swallowed(m, i, j, off, len, off0, len0);
  }

  lemma MiddleCover(m: seq<Seg>, k: nat, i: nat, j: nat, x: nat)
    requires i <= k <= j <= |m| && k <= i + 1 && j <= k + 1
    ensures Has(m[i..j], x) <==> (i < k && m[i].start <= x < m[i].end) || (k < j && m[k].start <= x < m[k].end)
  {
    if i < k {
      assert m[i..j][0] == m[i];
    }
    if k < j {
      assert m[i..j][k - i] == m[k];
    }
  }

  lemma DisjointBefore(m: seq<Seg>, k: nat, off: nat, len: nat)
    requires Canonical(m) && k <= |m| && 0 < len
    requires forall x: nat :: off <= x < off + len ==> !Has(m, x)
    requires forall i :: 0 <= i < k ==> m[i].start < off
    requires k < |m| ==> off <= m[k].start
    ensures forall i :: 0 <= i < k ==> m[i].end <= off
    ensures k < |m| ==> off + len <= m[k].start
  {
    forall i | 0 <= i < k ensures m[i].end <= off {
      assert !Has(m, off);
    }
    if k < |m| && m[k].start < off + len {
      assert Has(m, m[k].start);
      assert false;
    }
  }

  lemma Swallowed(m: seq<Seg>, i: nat, j: nat, off: nat, len: nat, off0: nat, len0: nat)
    requires Canonical(m) && i <= j <= |m| && j <= i + 2 && 0 < len
    requires off <= off0 && off0 + len0 <= off + len
    requires forall x: nat :: Has(m[i..j], x) || off0 <= x < off0 + len0 <==> off <= x < off + len
    ensures forall x: nat :: Has(m[..i] + [Seg(off, off + len)] + m[j..], x) <==> Has(m, x) || off0 <= x < off0 + len0
  {
    assert m == m[..i] + m[i..j] + m[j..];
    forall x: nat ensures Has([Seg(off, off + len)], x) <==> Has(m[i..j], x) || off0 <= x < off0 + len0 {
      HasOne(Seg(off, off + len), x);
    }
    Covers(m[..i], m[i..j], [Seg(off, off + len)], m[j..], off0, off0 + len0);
  }

  /** The loop that collects the blocks of a release. */
  method Collect(es: seq<PExtent>) returns (m: seq<Seg>)
    requires Disjoint(es)
    ensures Canonical(m) && forall x: nat :: Has(m, x) <==> InExtents(es, x)
  {
    m := [];
    var i := 0;
    while i < |es|
      invariant 0 <= i <= |es| && Canonical(m)
      invariant forall x: nat :: Has(m, x) <==> InExtents(es[..i], x)
    {
      var e := es[i];
      assert es[..i + 1] == es[..i] + [e];
      forall x: nat ensures InExtents(es[..i + 1], x) <==> InExtents(es[..i], x) || e.offset <= x < e.offset + e.length {
        InExtentsMore(es[..i], e, x);
      }
      forall x: nat | e.offset <= x < e.offset + e.length ensures !InExtents(es[..i], x) {
        NotEarlier(es, i, x);
      }
      m := IntervalInsert(m, e.offset, e.length);
      i := i + 1;
    }
    assert es[..i] == es;
  }

  lemma NotEarlier(es: seq<PExtent>, i: nat, x: nat)
    requires Disjoint(es) && i < |es| && es[i].offset <= x < es[i].offset + es[i].length
    ensures !InExtents(es[..i], x)
  {
  }

  /** Some value that occurs twice occurs at two positions. */
  lemma {:induction false} TwoPlaces(es: seq<PExtent>, e: PExtent) returns (i: nat, j: nat)
    requires 2 <= multiset(es)[e]
    ensures i < j < |es| && es[i] == e == es[j]
  {
    assert es == [es[0]] + es[1..];
    if es[0] == e {
      assert e in multiset(es[1..]);
      var k :| 0 <= k < |es[1..]| && es[1..][k] == e;
      return 0, k + 1;
    }
    i, j := TwoPlaces(es[1..], e);
    i, j := i + 1, j + 1;
  }

  lemma TwiceIn(es: seq<PExtent>, i: nat, j: nat)
    requires i < j < |es| && es[i] == es[j]
    ensures 2 <= multiset(es)[es[i]]
  {
    assert es == es[..j] + [es[j]] + es[j + 1..];
    assert es[..j][i] == es[j];
    assert es[j] in multiset(es[..j]);
  }

  /** Rearranging disjoint blocks keeps them disjoint and keeps what they cover. */
  lemma Rearranged(es: seq<PExtent>, es': seq<PExtent>)
    requires Disjoint(es) && multiset(es) == multiset(es') && forall i :: 0 <= i < |es| ==> 0 < es[i].length
    ensures Disjoint(es') && (forall i :: 0 <= i < |es'| ==> 0 < es'[i].length)
    ensures forall x: nat :: InExtents(es', x) <==> InExtents(es, x)
  {
    forall e ensures e in es <==> e in es' {
      assert e in multiset(es) <==> e in multiset(es');
    }
    forall i, j | 0 <= i < j < |es'|
      ensures es'[i].offset + es'[i].length <= es'[j].offset || es'[j].offset + es'[j].length <= es'[i].offset
    {
      assert es'[i] in es && es'[j] in es;
      if es'[i] == es'[j] {
        TwiceIn(es', i, j);
        var a, b := TwoPlaces(es, es'[i]);
        assert false;
      }
    }
    forall i | 0 <= i < |es'| ensures 0 < es'[i].length {
      assert es'[i] in es;
    }
    forall x: nat ensures InExtents(es', x) <==> InExtents(es, x) {
      SameCover(es, es', x);
      SameCover(es', es, x);
    }
  }

  lemma SameCover(es: seq<PExtent>, es': seq<PExtent>, x: nat)
    requires forall e :: e in es ==> e in es'
    ensures InExtents(es, x) ==> InExtents(es', x)
  {
    if InExtents(es, x) {
      var i :| 0 <= i < |es| && es[i].offset <= x < es[i].offset + es[i].length;
      assert es[i] in es';
    }
  }

  /**
   Take the blocks `es` from the free ranges `r0`, then give back any
   rearrangement of them: both indexes and the counter are what they were.
   */
  lemma ReleaseRestores(r0: seq<Seg>, q0: seq<Seg>, n0: int, r1: seq<Seg>,
                        es: seq<PExtent>, es': seq<PExtent>, r2: seq<Seg>, q2: seq<Seg>, n2: int)
    requires Canonical(r0) && Indexed(r0, q0, n0) && Canonical(r2) && Indexed(r2, q2, n2)
    requires Taken(r0, r1, es) && multiset(es) == multiset(es') && forall i :: 0 <= i < |es| ==> 0 < es[i].length
    requires forall x: nat :: Has(r2, x) <==> Has(r1, x) || InExtents(es', x)
    ensures r2 == r0 && q2 == q0 && n2 == n0
  {
    Rearranged(es, es');
    CanonicalUnique(r2, r0);
    SizeIndexUnique(q2, q0);
  }

  /** `allocate` followed by `release` of the same blocks, in any order, is the identity. */
  method AllocateThenRelease(a: AvlAllocator, want: nat, unit: nat, maxAlloc: nat, order: seq<nat>)
    requires a.Valid() && 0 < unit && want % unit == 0
    requires 0 < want ==> 0 < EffectiveCap(want, maxAlloc, a.blockSize)
    modifies a`ranges, a`bySize, a`numFree, a`lbas
    ensures a.Valid()
    ensures a.ranges == old(a.ranges) && a.bySize == old(a.bySize) && a.numFree == old(a.numFree)
  {
    var r, es := a.Allocate(want, unit, maxAlloc);
    var es' := Picked(es, order);
    ghost var mid := a.ranges;
    Rearranged(es, es');
    a.Release(es');
    ReleaseRestores(old(a.ranges), old(a.bySize), old(a.numFree), mid, es, es', a.ranges, a.bySize, a.numFree);
  }

  /** A rearrangement picked by `order`: each number selects the next block among those left. */
  function Picked(es: seq<PExtent>, order: seq<nat>): (r: seq<PExtent>)
    ensures multiset(r) == multiset(es)
    decreases |es|
  {
    if es == [] then es
    else
      var k := if order == [] then 0 else order[0] % |es|;
      var rest := if order == [] then [] else order[1..];
      assert es == es[..k] + [es[k]] + es[k + 1..];
      [es[k]] + Picked(es[..k] + es[k + 1..], rest)
  }

  // Concrete allocators on which `allocate` falls short, and on which its blocks are uneven.

  /** `n` ranges of four bytes, none at a multiple of four. */
  function Crowd(n: nat): (rs: seq<Seg>)
    ensures |rs| == n && forall i :: 0 <= i < n ==> rs[i] == Seg(8 * i + 1, 8 * i + 5)
  {
    seq(n, i requires 0 <= i => Seg(8 * i + 1, 8 * i + 5))
  }

  /** One more range becomes free after those of a list. */
  lemma OneMoreRange(rs: seq<Seg>, s: Seg, rs': seq<Seg>)
    requires Canonical(rs) && Canonical(rs') && s.start < s.end
    requires rs != [] ==> rs[|rs| - 1].end < s.start
    requires forall x: nat :: Has(rs', x) <==> Has(rs, x) || s.start <= x < s.end
    ensures rs' == rs + [s]
  {
    CanonicalConcat(rs, [s]);
    forall x: nat ensures Has(rs + [s], x) <==> Has(rs', x) {
      HasConcat(rs, [s], x);
      HasOne(s, x);
    }
    CanonicalUnique(rs', rs + [s]);
  }

  lemma NotYetFree(rs: seq<Seg>, lo: nat)
    requires forall i :: 0 <= i < |rs| ==> rs[i].end < lo
    ensures forall x: nat :: lo <= x ==> !Has(rs, x)
  {
  }

  /** The search for a unit looks at the first hundred ranges only, and the aligned one comes after them. */
  lemma CrowdMisses(q: seq<Seg>)
    requires q == Crowd(101) + [Seg(816, 820)]
    ensures SizeSorted(q) && Longest(q) == 4 && Exhausted(q, 4, 4, 100) && Fits(q[101], 4, 4)
  {
    forall i | 0 <= i < 101 ensures !Fits(q[i], 4, 4) {
      UnalignedByOne(2 * i);
    }
    assert P2RoundUp(816, 4) == 816;
    assert Searched(q, 4, 100) == 100;
    assert P2Align(4 / 2, 4) == 0;
  }

  lemma UnalignedByOne(n: nat)
    ensures P2RoundUp(4 * n + 1, 4) == 4 * n + 4
  {
  }

  /**
   The search limit makes `allocate` give up although an aligned unit is free: with
   101 ranges that hold none ahead of it in the size index.
   */
  method SearchLimitMisses() returns (a: AvlAllocator, r: int, es: seq<PExtent>)
    ensures fresh(a) && a.Valid() && r == NoSpace && es == []
    ensures |a.ranges| == 102 && Fits(a.ranges[101], 4, 4)
  {
    a := new AvlAllocator(4096, 4);
    var i := 0;
    while i < 101
      invariant 0 <= i <= 101 && fresh(a) && a.Valid() && a.ranges == Crowd(i)
      invariant a.deviceSize == 4096 && a.blockSize == 4 && a.maxSearchCount == 100
    {
      NotYetFree(a.ranges, 8 * i + 1);
      ghost var before := a.ranges;
      a.InitAddFree(8 * i + 1, 4);
      OneMoreRange(before, Seg(8 * i + 1, 8 * i + 5), a.ranges);
      assert Crowd(i) + [Seg(8 * i + 1, 8 * i + 5)] == Crowd(i + 1);
      i := i + 1;
    }
    NotYetFree(a.ranges, 816);
    ghost var before := a.ranges;
    a.InitAddFree(816, 4);
    OneMoreRange(before, Seg(816, 820), a.ranges);
    CrowdMisses(a.ranges);
    SizeIndexUnique(a.bySize, a.ranges);
    ghost var was, q, free := a.ranges, a.bySize, a.numFree;
    r, es := a.Allocate(4, 4, 0);
    if es != [] {
      FirstPick(was, q, free, es, 4, 4, 4, 100, 4096);
    }
    NothingTaken(Crowd(101) + [Seg(816, 820)], a.ranges);
  }

  lemma NothingTaken(rs: seq<Seg>, rs': seq<Seg>)
    requires Canonical(rs) && Canonical(rs') && Taken(rs, rs', [])
    ensures rs' == rs
  {
    CanonicalUnique(rs, rs');
  }

  /**
   Whenever the request exceeds a cap that is not a multiple of the unit, some
   allocator returns a block whose length is not one: here, with one free range.
   */
  method UnevenBlock(want: nat, unit: nat, maxAlloc: nat, blockSize: nat) returns (r: int, es: seq<PExtent>)
    requires 0 < unit && want % unit == 0 && 0 < want && 0 < blockSize
    requires 0 < EffectiveCap(want, maxAlloc, blockSize) && !Even(want, unit, EffectiveCap(want, maxAlloc, blockSize))
    ensures es != [] && es[0].length % unit != 0
  {
    var a := new AvlAllocator(want, blockSize);
    NotYetFree(a.ranges, 0);
    a.InitAddFree(0, want);
    OneMoreRange([], Seg(0, want), a.ranges);
    SizeIndexUnique(a.bySize, [Seg(0, want)]);
    WholeRangeReady(want, unit, EffectiveCap(want, maxAlloc, blockSize));
    ghost var was, free := a.ranges, a.numFree;
    r, es := a.Allocate(want, unit, maxAlloc);
    FirstPick(was, [Seg(0, want)], free, es, want, unit, EffectiveCap(want, maxAlloc, blockSize), 100, want);
  }

  lemma WholeRangeReady(want: nat, unit: nat, cap: nat)
    requires 0 < unit && 0 < cap < want
    ensures Ready([Seg(0, want)], cap, unit, 100)
  {
    var q := [Seg(0, want)];
    assert q[..Searched(q, cap, 100)] == q;
    assert P2RoundUp(0, unit) == 0;
    assert Fits(q[0], cap, unit);
  }
}
