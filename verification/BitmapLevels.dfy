/**
 What the three levels of the bitmap allocator mean (`blk/bitmap_allocator.h`).
 A set bit of level 0 is a free unit.  An entry of level 1 summarises 512 units,
 a bit of level 2 summarises 256 entries.
 */
module BitmapLevels {
  import opened Slot

  const Full: slot := 0
  const Partial: slot := 1
  const Unallocated: slot := 3

  predicate Free(l0: seq<slot>, u: nat)
    requires u < 64 * |l0|
  {
    Test(l0[u / 64], u % 64)
  }

  ghost predicate NoneFree(l0: seq<slot>, lo: nat, hi: nat)
    requires hi <= 64 * |l0|
  {
    forall u :: lo <= u < hi ==> !Free(l0, u)
  }

  /** No unit of `lo..hi` that exists is free. */
  ghost predicate Taken(l0: seq<slot>, lo: nat, hi: nat) {
    forall u :: 0 <= u < 64 * |l0| && lo <= u < hi ==> !Free(l0, u)
  }

  ghost predicate AllFree(l0: seq<slot>, lo: nat, hi: nat)
    requires hi <= 64 * |l0|
  {
    forall u :: lo <= u < hi ==> Free(l0, u)
  }

  /** What the entry `e` of level 1 should say. */
  ghost function Summary(l0: seq<slot>, e: nat): slot
    requires 512 * e + 512 <= 64 * |l0|
  {
    if NoneFree(l0, 512 * e, 512 * e + 512) then Full
    else if AllFree(l0, 512 * e, 512 * e + 512) then Unallocated
    else Partial
  }

  function EntryAt(l1: seq<slot>, e: nat): slot
    requires e < 32 * |l1|
  {
    Entry(l1[e / 32], e % 32)
  }

  ghost predicate L1Exact(l0: seq<slot>, l1: seq<slot>) {
    |l0| == 256 * |l1| && forall e :: 0 <= e < 32 * |l1| ==> EntryAt(l1, e) == Summary(l0, e)
  }

  ghost function Entries(l1: seq<slot>, v: slot): set<nat> {
    set e | 0 <= e < 32 * |l1| && EntryAt(l1, e) == v
  }

  /** The counters are the numbers of partial and of unallocated entries. */
  ghost predicate Counted(l1: seq<slot>, partials: nat, unallocs: nat) {
    partials == |Entries(l1, Partial)| && unallocs == |Entries(l1, Unallocated)|
  }

  predicate L2Bit(l2: seq<slot>, p: nat)
    requires p < 64 * |l2|
  {
    Test(l2[p / 64], p % 64)
  }

  ghost predicate GroupFree(l0: seq<slot>, p: nat)
    requires 131072 * p + 131072 <= 64 * |l0|
  {
    exists u :: 131072 * p <= u < 131072 * p + 131072 && Free(l0, u)
  }

  /** `groups` groups, each with its bit of level 2; the bits after them are clear. */
  ghost predicate L2Exact(l0: seq<slot>, l2: seq<slot>, groups: nat) {
    && |l0| == 2048 * groups && groups <= 64 * |l2|
    && forall p :: 0 <= p < 64 * |l2| ==> (L2Bit(l2, p) <==> p < groups && GroupFree(l0, p))
  }

  ghost function FreeUnits(l0: seq<slot>): set<nat> {
    set u | 0 <= u < 64 * |l0| && Free(l0, u)
  }

  /** `l0'` has the units `lo..hi` free besides those of `l0`. */
  ghost predicate Freed(l0: seq<slot>, l0': seq<slot>, lo: nat, hi: nat) {
    && |l0'| == |l0|
    && forall u :: 0 <= u < 64 * |l0| ==> (Free(l0', u) <==> Free(l0, u) || lo <= u < hi)
  }

  /** `l0'` has the free units of `l0`, except `lo..hi`. */
  ghost predicate Claimed(l0: seq<slot>, l0': seq<slot>, lo: nat, hi: nat) {
    && |l0'| == |l0|
    && forall u :: 0 <= u < 64 * |l0| ==> (Free(l0', u) <==> Free(l0, u) && !(lo <= u < hi))
  }

  // One slot of level 0.

  lemma SetUnit(l0: seq<slot>, p: nat)
    requires p < 64 * |l0|
    ensures Freed(l0, l0[p / 64 := Or(l0[p / 64], Bit(p % 64))], p, p + 1)
  {
    var l0' := l0[p / 64 := Or(l0[p / 64], Bit(p % 64))];
    forall u | 0 <= u < 64 * |l0| ensures Free(l0', u) <==> Free(l0, u) || u == p {
      TestSet(l0[p / 64], p % 64, u % 64);
    }
  }

  lemma ClearUnit(l0: seq<slot>, p: nat)
    requires p < 64 * |l0|
    ensures Claimed(l0, l0[p / 64 := And(l0[p / 64], Not(Bit(p % 64)))], p, p + 1)
  {
    var l0' := l0[p / 64 := And(l0[p / 64], Not(Bit(p % 64)))];
    forall u | 0 <= u < 64 * |l0| ensures Free(l0', u) <==> Free(l0, u) && u != p {
      TestCleared(l0[p / 64], p % 64, u % 64);
    }
  }

  // One step of the marking loops.

  lemma ClaimNextUnit(was: seq<slot>, l0: seq<slot>, lo: nat, p: nat)
    requires lo <= p < 64 * |l0| && Claimed(was, l0, lo, p)
    ensures Claimed(was, l0[p / 64 := And(l0[p / 64], Not(Bit(p % 64)))], lo, p + 1)
  {
    ClearUnit(l0, p);
    ClaimedMore(was, l0, l0[p / 64 := And(l0[p / 64], Not(Bit(p % 64)))], lo, p, p + 1);
  }

  lemma ClaimNextWord(was: seq<slot>, l0: seq<slot>, lo: nat, i: nat)
    requires lo <= 64 * i && i < |l0| && Claimed(was, l0, lo, 64 * i)
    ensures Claimed(was, l0[i := AllClear], lo, 64 * i + 64)
  {
    ClearWord(l0, i);
    ClaimedMore(was, l0, l0[i := AllClear], lo, 64 * i, 64 * i + 64);
  }

  lemma FreeNextUnit(was: seq<slot>, l0: seq<slot>, lo: nat, p: nat)
    requires lo <= p < 64 * |l0| && Freed(was, l0, lo, p)
    ensures Freed(was, l0[p / 64 := Or(l0[p / 64], Bit(p % 64))], lo, p + 1)
  {
    SetUnit(l0, p);
    FreedMore(was, l0, l0[p / 64 := Or(l0[p / 64], Bit(p % 64))], lo, p, p + 1);
  }

  lemma FreeNextWord(was: seq<slot>, l0: seq<slot>, lo: nat, i: nat)
    requires lo <= 64 * i && i < |l0| && Freed(was, l0, lo, 64 * i)
    ensures Freed(was, l0[i := AllSet], lo, 64 * i + 64)
  {
    SetWord(l0, i);
    FreedMore(was, l0, l0[i := AllSet], lo, 64 * i, 64 * i + 64);
  }

  /** The units `lo..hi` were all free, and exactly they have been taken. */
  ghost predicate Run(l0: seq<slot>, l0': seq<slot>, lo: nat, hi: nat) {
    lo <= hi <= 64 * |l0| && AllFree(l0, lo, hi) && Claimed(l0, l0', lo, hi)
  }

  /** Bit `k` of slot `i`, tested and cleared by its mask. */
  lemma MaskedUnit(l0: seq<slot>, i: nat, k: nat)
    requires i < |l0| && k < 64
    ensures And(l0[i], Bit(k)) == 0 <==> !Free(l0, 64 * i + k)
    ensures Claimed(l0, l0[i := And(l0[i], Not(Bit(k)))], 64 * i + k, 64 * i + k + 1)
  {
    assert (64 * i + k) / 64 == i && (64 * i + k) % 64 == k;
    MaskTest(l0[i], k);
    ClearUnit(l0, 64 * i + k);
  }

  /** A run grows by the unit before it or after it, if its mask says so. */
  lemma RunByUnit(l0: seq<slot>, l0': seq<slot>, lo: nat, hi: nat, i: nat, k: nat)
    requires Run(l0, l0', lo, hi) && i < |l0| && k < 64 && (64 * i + k + 1 == lo || 64 * i + k == hi)
    ensures And(l0'[i], Bit(k)) == 0 <==> !Free(l0, 64 * i + k)
    ensures And(l0'[i], Bit(k)) != 0 ==>
              Run(l0, l0'[i := And(l0'[i], Not(Bit(k)))], if 64 * i + k < lo then lo - 1 else lo, if 64 * i + k == hi then hi + 1 else hi)
  {
    MaskedUnit(l0', i, k);
    if And(l0'[i], Bit(k)) != 0 {
      if 64 * i + k == hi {
        ClaimedMore(l0, l0', l0'[i := And(l0'[i], Not(Bit(k)))], lo, hi, hi + 1);
      } else {
        ClaimedMore(l0, l0', l0'[i := And(l0'[i], Not(Bit(k)))], lo - 1, lo, hi);
      }
    }
  }

  /** A run grows by a whole slot when that compares equal to all ones. */
  lemma RunByWord(l0: seq<slot>, l0': seq<slot>, lo: nat, hi: nat, i: nat)
    requires Run(l0, l0', lo, hi) && i < |l0| && (64 * i + 64 == lo || 64 * i == hi) && l0'[i] == AllSet
    ensures Run(l0, l0'[i := AllClear], if 64 * i < lo then 64 * i else lo, if 64 * i == hi then 64 * i + 64 else hi)
  {
    WordUnits(l0', i);
    ClearWord(l0', i);
    if 64 * i == hi {
      ClaimedMore(l0, l0', l0'[i := AllClear], lo, hi, 64 * i + 64);
    } else {
      ClaimedMore(l0, l0', l0'[i := AllClear], 64 * i, lo, hi);
    }
  }

  /** Two runs side by side. */
  lemma RunJoin(a: seq<slot>, b: seq<slot>, c: seq<slot>, lo: nat, mid: nat, hi: nat)
    requires (Run(a, b, lo, mid) && Run(b, c, mid, hi)) || (Run(a, b, mid, hi) && Run(b, c, lo, mid))
    ensures Run(a, c, lo, hi)
  {
    ClaimedMore(a, b, c, lo, mid, hi);
  }

  /** A slot outside the run is as it was. */
  lemma UntouchedWord(l0: seq<slot>, l0': seq<slot>, lo: nat, hi: nat, i: nat)
    requires Run(l0, l0', lo, hi) && i < |l0| && (64 * i + 64 <= lo || hi <= 64 * i)
    ensures l0'[i] == AllClear <==> NoneFree(l0, 64 * i, 64 * i + 64)
    ensures l0'[i] == AllSet <==> AllFree(l0, 64 * i, 64 * i + 64)
    ensures forall u :: 64 * i <= u < 64 * i + 64 ==> (Free(l0', u) <==> Free(l0, u))
  {
    WordUnits(l0', i);
    assert forall u :: 64 * i <= u < 64 * i + 64 ==> (Free(l0', u) <==> Free(l0, u));
  }

  lemma SetWord(l0: seq<slot>, i: nat)
    requires i < |l0|
    ensures Freed(l0, l0[i := AllSet], 64 * i, 64 * i + 64)
  {
    var l0' := l0[i := AllSet];
    forall u | 0 <= u < 64 * |l0|
      ensures Free(l0', u) <==> Free(l0, u) || 64 * i <= u < 64 * i + 64
    {
      TestConstants(u % 64);
    }
  }

  lemma ClearWord(l0: seq<slot>, i: nat)
    requires i < |l0|
    ensures Claimed(l0, l0[i := AllClear], 64 * i, 64 * i + 64)
  {
    var l0' := l0[i := AllClear];
    forall u | 0 <= u < 64 * |l0|
      ensures Free(l0', u) <==> Free(l0, u) && !(64 * i <= u < 64 * i + 64)
    {
      TestConstants(u % 64);
    }
  }

  lemma FreedMore(a: seq<slot>, b: seq<slot>, c: seq<slot>, lo: nat, mid: nat, hi: nat)
    requires Freed(a, b, lo, mid) && Freed(b, c, mid, hi) && lo <= mid <= hi
    ensures Freed(a, c, lo, hi)
  {
  }

  lemma ClaimedMore(a: seq<slot>, b: seq<slot>, c: seq<slot>, lo: nat, mid: nat, hi: nat)
    requires lo <= mid <= hi
    requires (Claimed(a, b, lo, mid) && Claimed(b, c, mid, hi)) || (Claimed(a, b, mid, hi) && Claimed(b, c, lo, mid))
    ensures Claimed(a, c, lo, hi)
  {
  }

  /** A whole slot compared with the two constants. */
  lemma WordUnits(l0: seq<slot>, i: nat)
    requires i < |l0|
    ensures l0[i] == AllSet <==> AllFree(l0, 64 * i, 64 * i + 64)
    ensures l0[i] == AllClear <==> NoneFree(l0, 64 * i, 64 * i + 64)
  {
    WholeSlot(l0[i]);
    forall j | 0 <= j < 64 ensures Free(l0, 64 * i + j) <==> Test(l0[i], j) {
      assert (64 * i + j) / 64 == i && (64 * i + j) % 64 == j;
    }
    if EveryBit(l0[i]) {
      forall u | 64 * i <= u < 64 * i + 64 ensures Free(l0, u) { assert Test(l0[i], u - 64 * i); }
    }
    if NoBits(l0[i]) {
      forall u | 64 * i <= u < 64 * i + 64 ensures !Free(l0, u) { assert !Test(l0[i], u - 64 * i); }
    }
    if AllFree(l0, 64 * i, 64 * i + 64) {
      forall j | 0 <= j < 64 ensures Test(l0[i], j) { assert Free(l0, 64 * i + j); }
    }
    if NoneFree(l0, 64 * i, 64 * i + 64) {
      forall j | 0 <= j < 64 ensures !Test(l0[i], j) { assert !Free(l0, 64 * i + j); }
    }
  }

  /** The two running aggregates of `_mark_l1_on_l0`. */
  lemma AggregateStep(v: slot, w: slot)
    ensures And(v, w) == AllSet <==> v == AllSet && w == AllSet
    ensures Or(v, w) == AllClear <==> v == AllClear && w == AllClear
  {
    AndSets(v, w, And(v, w));
    OrClears(v, w, Or(v, w));
    WholeSlot(v);
    WholeSlot(w);
    WholeSlot(And(v, w));
    WholeSlot(Or(v, w));
  }

  lemma AndSets(v: slot, w: slot, x: slot)
    requires x == And(v, w)
    ensures EveryBit(x) <==> EveryBit(v) && EveryBit(w)
  {
    forall j | 0 <= j < 64 ensures Test(x, j) <==> Test(v, j) && Test(w, j) {
      TestAnd(v, w, j);
    }
    if EveryBit(x) {
      forall j | 0 <= j < 64 ensures Test(v, j) && Test(w, j) { assert Test(x, j); }
    }
  }

  lemma OrClears(v: slot, w: slot, x: slot)
    requires x == Or(v, w)
    ensures NoBits(x) <==> NoBits(v) && NoBits(w)
  {
    forall j | 0 <= j < 64 ensures Test(x, j) <==> Test(v, j) || Test(w, j) {
      TestOr(v, w, j);
    }
    if NoBits(x) {
      forall j | 0 <= j < 64 ensures !Test(v, j) && !Test(w, j) { assert !Test(x, j); }
    }
  }

  // Level 1.

  /** Level 1 with entry `e` set to `v`. */
  function PutAt(l1: seq<slot>, e: nat, v: slot): seq<slot>
    requires e < 32 * |l1|
  {
    l1[e / 32 := PutEntry(l1[e / 32], e % 32, v)]
  }

  lemma PutAtEntry(l1: seq<slot>, e: nat, v: slot, f: nat)
    requires e < 32 * |l1| && f < 32 * |l1| && v < 4
    ensures EntryAt(PutAt(l1, e, v), f) == if f == e then v else EntryAt(l1, f)
  {
    EntryPut(l1[e / 32], e % 32, v, f % 32);
  }

  /** Writing one entry moves at most one member of each set of entries. */
  lemma CountPut(l1: seq<slot>, e: nat, v: slot, x: slot)
    requires e < 32 * |l1| && v < 4
    ensures |Entries(PutAt(l1, e, v), x)| + (if EntryAt(l1, e) == x then 1 else 0)
         == |Entries(l1, x)| + (if v == x then 1 else 0)
  {
    var l1' := PutAt(l1, e, v);
    var a, b := Entries(l1, x), Entries(l1', x);
    forall f: nat ensures f in b <==> if f == e then v == x else f in a {
      if f < 32 * |l1| {
        PutAtEntry(l1, e, v, f);
      }
    }
    assert e in a <==> EntryAt(l1, e) == x;
    OneMember(a, b, e);
  }

  lemma OneMember(a: set<nat>, b: set<nat>, e: nat)
    requires forall f: nat :: f != e ==> (f in b <==> f in a)
    ensures |b| + (if e in a then 1 else 0) == |a| + (if e in b then 1 else 0)
  {
    var c := a - {e};
    assert b - {e} == c;
    assert a == if e in a then c + {e} else c;
    assert b == if e in b then c + {e} else c;
  }

  /** A summary depends on its own 512 units. */
  lemma SummaryElsewhere(l0: seq<slot>, l0': seq<slot>, e: nat)
    requires |l0'| == |l0| && 512 * e + 512 <= 64 * |l0|
    requires forall u :: 512 * e <= u < 512 * e + 512 ==> (Free(l0', u) <==> Free(l0, u))
    ensures Summary(l0', e) == Summary(l0, e)
  {
  }

  /** A group has a free unit exactly when one of its entries is not full. */
  lemma GroupByEntries(l0: seq<slot>, l1: seq<slot>, p: nat)
    requires L1Exact(l0, l1) && 8 * p + 8 <= |l1|
    ensures GroupFree(l0, p) <==> exists e :: 256 * p <= e < 256 * p + 256 && EntryAt(l1, e) != Full
  {
    if GroupFree(l0, p) {
      var u :| 131072 * p <= u < 131072 * p + 131072 && Free(l0, u);
      assert 256 * p <= u / 512 < 256 * p + 256 && EntryAt(l1, u / 512) == Summary(l0, u / 512);
    }
    if e :| 256 * p <= e < 256 * p + 256 && EntryAt(l1, e) != Full {
      assert EntryAt(l1, e) == Summary(l0, e);
      var u :| 512 * e <= u < 512 * e + 512 && Free(l0, u);
      assert 131072 * p <= u < 131072 * p + 131072;
    }
  }

  // Counting units.

  ghost function Interval(lo: nat, hi: nat): (r: set<nat>)
    requires lo <= hi
    ensures |r| == hi - lo && forall u :: u in r <==> lo <= u < hi
    decreases hi - lo
  {
    if lo == hi then {} else Interval(lo, hi - 1) + {hi - 1}
  }

  lemma CountFreed(l0: seq<slot>, l0': seq<slot>, lo: nat, hi: nat)
    requires Freed(l0, l0', lo, hi) && lo <= hi <= 64 * |l0| && Taken(l0, lo, hi)
    ensures |FreeUnits(l0')| == |FreeUnits(l0)| + (hi - lo)
  {
    assert FreeUnits(l0') == FreeUnits(l0) + Interval(lo, hi);
    assert FreeUnits(l0) !! Interval(lo, hi);
  }

  lemma CountBound(l0: seq<slot>)
    ensures |FreeUnits(l0)| <= 64 * |l0|
  {
    SubsetSize(FreeUnits(l0), Interval(0, 64 * |l0|));
  }

  lemma SubsetSize(a: set<nat>, b: set<nat>)
    requires a <= b
    ensures |a| <= |b|
  {
    assert b == a + (b - a);
  }

  // The levels are a function of the free units.

  lemma SameL0(a: seq<slot>, b: seq<slot>)
    requires |a| == |b| && forall u :: 0 <= u < 64 * |a| ==> (Free(a, u) <==> Free(b, u))
    ensures a == b
  {
    forall i | 0 <= i < |a| ensures a[i] == b[i] {
      forall j | 0 <= j < 64 ensures Test(a[i], j) <==> Test(b[i], j) {
        assert (64 * i + j) / 64 == i && (64 * i + j) % 64 == j;
        assert Free(a, 64 * i + j) <==> Free(b, 64 * i + j);
      }
      SameBits(a[i], b[i]);
    }
  }

  lemma SameL1(l0: seq<slot>, a: seq<slot>, b: seq<slot>)
    requires L1Exact(l0, a) && L1Exact(l0, b)
    ensures a == b
  {
    forall i | 0 <= i < |a| ensures a[i] == b[i] {
      forall k | 0 <= k < 32 ensures Entry(a[i], k) == Entry(b[i], k) {
        assert (32 * i + k) / 32 == i && (32 * i + k) % 32 == k;
        assert EntryAt(a, 32 * i + k) == Summary(l0, 32 * i + k) == EntryAt(b, 32 * i + k);
      }
      SameEntries(a[i], b[i]);
    }
  }

  lemma SameL2(l0: seq<slot>, a: seq<slot>, b: seq<slot>, groups: nat)
    requires L2Exact(l0, a, groups) && L2Exact(l0, b, groups) && |a| == |b|
    ensures a == b
  {
    forall i | 0 <= i < |a| ensures a[i] == b[i] {
      forall j | 0 <= j < 64 ensures Test(a[i], j) <==> Test(b[i], j) {
        assert (64 * i + j) / 64 == i && (64 * i + j) % 64 == j;
        assert L2Bit(a, 64 * i + j) <==> L2Bit(b, 64 * i + j);
      }
      SameBits(a[i], b[i]);
    }
  }

  /** Nothing is free in cleared levels. */
  lemma ClearLevels(l0: seq<slot>, l1: seq<slot>, l2: seq<slot>, groups: nat)
    requires |l0| == 2048 * groups && |l1| == 8 * groups && groups <= 64 * |l2|
    requires (forall i :: 0 <= i < |l0| ==> l0[i] == AllClear) && (forall i :: 0 <= i < |l1| ==> l1[i] == AllClear)
    requires forall i :: 0 <= i < |l2| ==> l2[i] == AllClear
    ensures NoneFree(l0, 0, 64 * |l0|) && L1Exact(l0, l1) && Counted(l1, 0, 0) && L2Exact(l0, l2, groups)
    ensures FreeUnits(l0) == {}
  {
    forall u | 0 <= u < 64 * |l0| ensures !Free(l0, u) {
      TestConstants(u % 64);
    }
    forall e | 0 <= e < 32 * |l1| ensures EntryAt(l1, e) == Full == Summary(l0, e) {
      EntryZero(e % 32);
    }
    forall p | 0 <= p < 64 * |l2| ensures !L2Bit(l2, p) {
      TestConstants(p % 64);
    }
    assert Entries(l1, Partial) == {} && Entries(l1, Unallocated) == {};
  }
}
