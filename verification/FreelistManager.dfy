/**
 `BitmapFreelistManager`: turning byte ranges into merges, creating the bitmap,
 and enumerating the free space.
 */
module FreelistManager {
  import opened Freelist
  import opened IntArith

  // ---- byte offsets, blocks and keys

  lemma Distribute(q: nat, a: nat, c: nat, m: nat)
    requires q == BLOCKS_PER_KEY * a + c
    ensures q * m == a * (BLOCKS_PER_KEY * m) + c * m
  {
  }

  /** Splitting a byte offset by keys and then by blocks is splitting its block number by 128. */
  lemma ByteToBlock(x: nat, bpb: nat, bpk: nat)
    requires 0 < bpb && bpk == BLOCKS_PER_KEY * bpb
    ensures x / bpk == x / bpb / BLOCKS_PER_KEY
    ensures x % bpk / bpb == x / bpb % BLOCKS_PER_KEY
  {
    var q, r := x / bpb, x % bpb;
    var a, c := q / BLOCKS_PER_KEY, q % BLOCKS_PER_KEY;
    DivMod(x, bpb);
    Distribute(q, a, c, bpb);
    MulLe(c, BLOCKS_PER_KEY - 1, bpb);
    var low := c * bpb + r;
    DivUnique(x, bpk, a, low);
    DivUnique(low, bpb, c, r);
  }

  lemma KeyStart(x: nat, bpk: nat, g: nat)
    requires 0 < bpk && g == x / bpk
    ensures x - x % bpk == Times(g, bpk)
  {
    DivMod(x, bpk);
    TimesIs(g, bpk);
  }

  /** The blocks of a nonempty aligned byte range: its last byte lies in the last block. */
  lemma LastByte(offset: nat, length: nat, bpb: nat)
    requires 0 < bpb && offset % bpb == 0 && length % bpb == 0 && 0 < length
    ensures offset / bpb < (offset + length) / bpb
    ensures (offset + length - 1) / bpb == (offset + length) / bpb - 1
  {
    var o, l := offset / bpb, length / bpb;
    assert offset == o * bpb && length == l * bpb;
    assert l != 0;
    var n := o + l;
    assert n * bpb == o * bpb + l * bpb;
    DivUnique(offset + length, bpb, n, 0);
    assert (n - 1) * bpb == n * bpb - bpb;
    DivUnique(offset + length - 1, bpb, n - 1, bpb - 1);
  }

  // ---- flips of a transaction, per block

  /** Whether a transaction flips block `b`. */
  predicate FlipsBlock(ms: seq<Merge>, bpk: nat, b: nat)
    requires SizedMerges(ms)
  {
    Flips(ms, Times(b / BLOCKS_PER_KEY, bpk), b % BLOCKS_PER_KEY)
  }

  ghost predicate FlipsExactly(ms: seq<Merge>, bpk: nat, lo: nat, hi: nat) {
    SizedMerges(ms) && forall b: nat :: FlipsBlock(ms, bpk, b) <==> lo <= b < hi
  }

  /** The byte offset `key` is that of one of the keys number `lo..hi`. */
  ghost predicate KeyIn(key: nat, bpk: nat, lo: nat, hi: nat) {
    exists g: nat :: lo <= g < hi && key == Times(g, bpk)
  }

  /** Every merge goes to one of the keys number `lo..hi`. */
  ghost predicate KeysWithin(ms: seq<Merge>, bpk: nat, lo: nat, hi: nat) {
    forall i :: 0 <= i < |ms| ==> KeyIn(ms[i].key, bpk, lo, hi)
  }

  lemma AppendMerge(ms: seq<Merge>, m: Merge, bpk: nat, lo: nat, g: nat, s: nat, e: nat)
    requires 0 < bpk && FlipsExactly(ms, bpk, lo, BLOCKS_PER_KEY * g + s) && lo <= BLOCKS_PER_KEY * g + s
    requires m.key == Times(g, bpk) && |m.value| == BYTES_PER_VALUE && s <= e <= BLOCKS_PER_KEY
    requires forall k :: 0 <= k < BLOCKS_PER_KEY ==> (TestBit(m.value, k) <==> s <= k < e)
    ensures FlipsExactly(ms + [m], bpk, lo, BLOCKS_PER_KEY * g + e)
  {
    forall b: nat ensures SizedMerges(ms + [m])
                  ensures FlipsBlock(ms + [m], bpk, b) <==> lo <= b < BLOCKS_PER_KEY * g + e {
      var key, i := Times(b / BLOCKS_PER_KEY, bpk), b % BLOCKS_PER_KEY;
      FlipsConcat(ms, [m], key, i);
      assert [m][1..] == [];
      KeyOrder(b / BLOCKS_PER_KEY, g, bpk);
      assert Flips([m], key, i) <==> (key == m.key && s <= i < e);
      assert FlipsBlock(ms, bpk, b) <==> lo <= b < BLOCKS_PER_KEY * g + s;
    }
  }

  lemma AppendKey(ms: seq<Merge>, m: Merge, bpk: nat, lo: nat, g: nat)
    requires KeysWithin(ms, bpk, lo, g) && lo <= g && m.key == Times(g, bpk)
    ensures KeysWithin(ms + [m], bpk, lo, g + 1)
  {
    forall i | 0 <= i < |ms + [m]| ensures KeyIn((ms + [m])[i].key, bpk, lo, g + 1) {
      if i < |ms| {
        assert KeyIn(ms[i].key, bpk, lo, g);
      }
    }
  }

  /** What a transaction built so far does: the blocks `lo..hi`, the keys of the groups `g..h`. */
  ghost predicate Built(ms: seq<Merge>, bpk: nat, lo: nat, hi: nat, g: nat, h: nat) {
    FlipsExactly(ms, bpk, lo, hi) && KeysWithin(ms, bpk, g, h) && lo <= hi && g <= h
  }

  lemma Extend(ms: seq<Merge>, m: Merge, bpk: nat, lo: nat, g0: nat, g: nat, s: nat, e: nat)
    requires 0 < bpk && Built(ms, bpk, lo, BLOCKS_PER_KEY * g + s, g0, g)
    requires m.key == Times(g, bpk) && |m.value| == BYTES_PER_VALUE && s <= e <= BLOCKS_PER_KEY
    requires forall k :: 0 <= k < BLOCKS_PER_KEY ==> (TestBit(m.value, k) <==> s <= k < e)
    ensures Built(ms + [m], bpk, lo, BLOCKS_PER_KEY * g + e, g0, g + 1)
  {
    AppendMerge(ms, m, bpk, lo, g, s, e);
    AppendKey(ms, m, bpk, g0, g);
  }

  lemma AllSetBits()
    ensures |AllSet| == BYTES_PER_VALUE
    ensures forall k :: 0 <= k < BLOCKS_PER_KEY ==> TestBit(AllSet, k)
  {
    forall k | 0 <= k < BLOCKS_PER_KEY ensures TestBit(AllSet, k) {
      ZeroTest(k);
    }
  }

  /**
   `_xor`: one merge for the first key, whole keys in the middle, one for the last.
   The transaction flips exactly the blocks of the range, and touches only their keys.
   */
  method Xor(bpb: nat, offset: nat, length: nat) returns (ms: seq<Merge>)
    requires 0 < bpb && offset % bpb == 0 && length % bpb == 0 && 0 < length
    ensures Built(ms, BLOCKS_PER_KEY * bpb, offset / bpb, (offset + length) / bpb,
                  offset / bpb / BLOCKS_PER_KEY, ((offset + length) / bpb - 1) / BLOCKS_PER_KEY + 1)
  {
    var bpk := BLOCKS_PER_KEY * bpb;
    var firstKey := offset - offset % bpk;
    var lastByte := offset + length - 1;
    var lastKey := lastByte - lastByte % bpk;
    var s := offset % bpk / bpb;
    var e := lastByte % bpk / bpb;
    ghost var lo, hi := offset / bpb, (offset + length) / bpb;
    ghost var g, last := lo / BLOCKS_PER_KEY, (hi - 1) / BLOCKS_PER_KEY;
    LastByte(offset, length, bpb);
    ByteToBlock(offset, bpb, bpk);
    ByteToBlock(lastByte, bpb, bpk);
    KeyStart(offset, bpk, g);
    KeyStart(lastByte, bpk, last);
    ms := MergesBetween(bpk, firstKey, lastKey, s, e, g, last);
  }

  /** The body of `_xor` once the first and last key and bit are known. */
  method MergesBetween(bpk: nat, first: nat, lastKey: nat, s: nat, e: nat, ghost g: nat, ghost last: nat)
    returns (ms: seq<Merge>)
    requires 0 < bpk && first == Times(g, bpk) && lastKey == Times(last, bpk)
    requires s < BLOCKS_PER_KEY && e < BLOCKS_PER_KEY && BLOCKS_PER_KEY * g + s <= BLOCKS_PER_KEY * last + e
    ensures Built(ms, bpk, BLOCKS_PER_KEY * g + s, BLOCKS_PER_KEY * last + e + 1, g, last + 1)
  {
    ghost var lo := BLOCKS_PER_KEY * g + s;
    KeyOrder(g, last, bpk);
    ms := [];
    assert Built(ms, bpk, lo, lo, g, g);
    if first == lastKey {
      var p := BitsBetween(s, e + 1);
      Extend(ms, Merge(first, p), bpk, lo, g, g, s, e + 1);
      ms := ms + [Merge(first, p)];
    } else {
      var p := BitsBetween(s, BLOCKS_PER_KEY);
      Extend(ms, Merge(first, p), bpk, lo, g, g, s, BLOCKS_PER_KEY);
      ms := ms + [Merge(first, p)];
      var key := first + bpk;
      ghost var at := g + 1;
      AllSetBits();
      while key < lastKey
        invariant g < at <= last && key == Times(at, bpk)
        invariant Built(ms, bpk, lo, BLOCKS_PER_KEY * at, g, at)
        decreases lastKey - key
      {
        KeyOrder(at, last, bpk);
        Extend(ms, Merge(key, AllSet), bpk, lo, g, at, 0, BLOCKS_PER_KEY);
        ms := ms + [Merge(key, AllSet)];
        key := key + bpk;
        at := at + 1;
      }
      KeyOrder(at, last, bpk);
      assert key == lastKey;
      p := BitsBetween(0, e + 1);
      Extend(ms, Merge(key, p), bpk, lo, g, at, 0, e + 1);
      ms := ms + [Merge(key, p)];
    }
  }

  // ---- allocate, release, create

  /** A transaction that flips the blocks `lo..hi` does so on every store. */
  lemma RangeFlips(st: Store, ms: seq<Merge>, bpk: nat, lo: nat, hi: nat, b: nat)
    requires Sized(st) && FlipsExactly(ms, bpk, lo, hi)
    ensures Sized(Apply(st, ms))
    ensures Bit(Apply(st, ms), bpk, b) <==> (Bit(st, bpk, b) != (lo <= b < hi))
  {
    ApplyFlips(st, ms, Times(b / BLOCKS_PER_KEY, bpk), b % BLOCKS_PER_KEY);
    assert FlipsBlock(ms, bpk, b) <==> lo <= b < hi;
  }

  /** Allocating a range and releasing it, by any two such transactions, restores the bitmap. */
  lemma ReleaseUndoesAllocate(st: Store, a: seq<Merge>, r: seq<Merge>, bpk: nat, lo: nat, hi: nat, b: nat)
    requires Sized(st) && FlipsExactly(a, bpk, lo, hi) && FlipsExactly(r, bpk, lo, hi)
    ensures Bit(Apply(Apply(st, a), r), bpk, b) <==> Bit(st, bpk, b)
  {
    RangeFlips(st, a, bpk, lo, hi, b);
    RangeFlips(Apply(st, a), r, bpk, lo, hi, b);
  }

  lemma FindSame(a: seq<Merge>, b: seq<Merge>) returns (k: nat)
    requires multiset(a) == multiset(b) && a != []
    ensures k < |b| && b[k] == a[0] && multiset(a[1..]) == multiset(b[..k] + b[k + 1..])
  {
    assert a[0] in multiset(b);
    k :| 0 <= k < |b| && b[k] == a[0];
    assert a == [a[0]] + a[1..];
    assert multiset(a[1..]) == multiset(a) - multiset{a[0]};
    assert b == b[..k] + ([b[k]] + b[k + 1..]);
    assert multiset(b[..k] + b[k + 1..]) == multiset(b) - multiset{b[k]};
  }

  lemma FlipsPull(b: seq<Merge>, k: nat, key: nat, i: nat)
    requires k < |b| && SizedMerges(b) && i < BLOCKS_PER_KEY
    ensures SizedMerges(b[..k] + b[k + 1..])
    ensures Flips(b, key, i) <==>
            ((b[k].key == key && TestBit(b[k].value, i)) != Flips(b[..k] + b[k + 1..], key, i))
  {
    var tail := b[k..];
    assert b == b[..k] + tail && tail[1..] == b[k + 1..];
    FlipsConcat(b[..k], tail, key, i);
    FlipsConcat(b[..k], b[k + 1..], key, i);
  }

  lemma {:induction false} FlipsReordered(a: seq<Merge>, b: seq<Merge>, key: nat, i: nat)
    requires multiset(a) == multiset(b) && SizedMerges(a) && SizedMerges(b) && i < BLOCKS_PER_KEY
    ensures Flips(a, key, i) <==> Flips(b, key, i)
    decreases a
  {
    if a == [] {
      assert |b| == |multiset(b)| == 0;
    } else {
      var k := FindSame(a, b);
      FlipsPull(b, k, key, i);
      FlipsReordered(a[1..], b[..k] + b[k + 1..], key, i);
    }
  }

  /** Merges commute: any reordering of a transaction gives the same flat bitmap. */
  lemma MergesCommute(st: Store, a: seq<Merge>, b: seq<Merge>, bpk: nat, blk: nat)
    requires Sized(st) && SizedMerges(a) && SizedMerges(b) && multiset(a) == multiset(b)
    ensures Bit(Apply(st, a), bpk, blk) <==> Bit(Apply(st, b), bpk, blk)
  {
    var key, i := Times(blk / BLOCKS_PER_KEY, bpk), blk % BLOCKS_PER_KEY;
    ApplyFlips(st, a, key, i);
    ApplyFlips(st, b, key, i);
    FlipsReordered(a, b, key, i);
  }
}
