/**
 Creating the bitmap and enumerating its free space.  `enumerate_next` resumes a
 scan over the keys that are present, treating the missing ones as free; the
 specification is the list of maximal free runs of the flat bitmap.
 */
module FreelistEnumerate {
  import opened Freelist
  import opened FreelistManager
  import opened IntArith

  datatype Geometry = Geometry(bpb: nat, size: nat, blocks: nat) {
    function BytesPerKey(): nat {
      BLOCKS_PER_KEY * bpb
    }

    function Groups(): nat {
      blocks / BLOCKS_PER_KEY
    }

    /** The number of keys that may be present; key 0 always is. */
    function Span(): nat {
      if Groups() == 0 then 1 else Groups()
    }

    /** Blocks that lie before the end of the device. */
    function Usable(): nat
      requires 0 < bpb
    {
      size / bpb
    }

    ghost predicate Valid() {
      && 0 < bpb && size % bpb == 0 && blocks % BLOCKS_PER_KEY == 0
      && size / bpb <= blocks < size / bpb + BLOCKS_PER_KEY
    }
  }

  /** `_size_2_block_count`: the block count rounded up to whole keys. */
  function BlockCount(size: nat, bpb: nat): (n: nat)
    requires 0 < bpb
    ensures n % BLOCKS_PER_KEY == 0 && size / bpb <= n < size / bpb + BLOCKS_PER_KEY
  {
    var target := size / bpb;
    if target / BLOCKS_PER_KEY * BLOCKS_PER_KEY != target
    then (target / BLOCKS_PER_KEY + 1) * BLOCKS_PER_KEY
    else target
  }

  lemma {:induction false} ApplyConcat(st: Store, a: seq<Merge>, b: seq<Merge>)
    ensures Apply(st, a + b) == Apply(Apply(st, a), b)
    decreases a
  {
    if a == [] {
      assert a + b == b;
    } else {
      assert (a + b)[1..] == a[1..] + b;
      ApplyConcat(ApplyMerge(st, a[0]), a[1..], b);
    }
  }

  lemma {:induction false} ApplyKeys(st: Store, ms: seq<Merge>, key: nat)
    ensures key in Apply(st, ms) ==> key in st || exists i :: 0 <= i < |ms| && ms[i].key == key
    decreases ms
  {
    if ms != [] {
      ApplyKeys(ApplyMerge(st, ms[0]), ms[1..], key);
      if key in Apply(st, ms) && key !in ApplyMerge(st, ms[0]) {
        var i :| 0 <= i < |ms[1..]| && ms[1..][i].key == key;
        assert ms[i + 1].key == key;
      } else if key in Apply(st, ms) && key !in st {
        assert ms[0].key == key;
      }
    }
  }

  ghost predicate KeysOk(geo: Geometry, st: Store) {
    forall k :: k in st ==> KeyIn(k, geo.BytesPerKey(), 0, geo.Span())
  }

  /** The store is a bitmap of this geometry: whole keys in range, block 0 and the blocks past the end set. */
  ghost predicate WellFormed(geo: Geometry, st: Store) {
    && geo.Valid() && Sized(st) && KeysOk(geo, st)
    && Bit(st, geo.BytesPerKey(), 0)
    && (forall b: nat :: geo.Usable() <= b < geo.blocks ==> Bit(st, geo.BytesPerKey(), b))
  }

  lemma KeysKept(geo: Geometry, st: Store, ms: seq<Merge>, lo: nat, hi: nat)
    requires KeysOk(geo, st) && KeysWithin(ms, geo.BytesPerKey(), lo, hi) && hi <= geo.Span()
    ensures KeysOk(geo, Apply(st, ms))
  {
    forall k | k in Apply(st, ms) ensures KeyIn(k, geo.BytesPerKey(), 0, geo.Span()) {
      ApplyKeys(st, ms, k);
      if k !in st {
        var i :| 0 <= i < |ms| && ms[i].key == k;
        assert KeyIn(ms[i].key, geo.BytesPerKey(), lo, hi);
      }
    }
  }

  /** Allocating or releasing any range of usable blocks other than block 0 keeps the bitmap well formed. */
  lemma RangeKeepsWellFormed(geo: Geometry, st: Store, ms: seq<Merge>, lo: nat, hi: nat)
    requires WellFormed(geo, st) && 0 < lo < hi <= geo.Usable()
    requires Built(ms, geo.BytesPerKey(), lo, hi, lo / BLOCKS_PER_KEY, (hi - 1) / BLOCKS_PER_KEY + 1)
    ensures WellFormed(geo, Apply(st, ms))
  {
    var bpk := geo.BytesPerKey();
    RangeFlips(st, ms, bpk, lo, hi, 0);
    forall b: nat | geo.Usable() <= b < geo.blocks ensures Bit(Apply(st, ms), bpk, b) {
      RangeFlips(st, ms, bpk, lo, hi, b);
    }
    KeysKept(geo, st, ms, lo / BLOCKS_PER_KEY, (hi - 1) / BLOCKS_PER_KEY + 1);
  }

  lemma ProductDivides(a: nat, d: nat)
    requires 0 < d
    ensures a * d % d == 0 && a * d / d == a
  {
    DivUnique(a * d, d, a, 0);
  }

  /**
   `create`: after its transaction exactly block 0 and the blocks past the end of
   the device are set.
   */
  method Create(newSize: nat, bpb: nat) returns (geo: Geometry, ms: seq<Merge>)
    requires 0 < bpb
    ensures geo == Geometry(bpb, newSize - newSize % bpb, BlockCount(newSize, bpb))
    ensures WellFormed(geo, Apply(map[], ms))
    ensures forall b: nat :: Bit(Apply(map[], ms), geo.BytesPerKey(), b) <==> b == 0 || geo.Usable() <= b < geo.blocks
  {
    var size := newSize - newSize % bpb;
    DivMod(newSize, bpb);
    ProductDivides(newSize / bpb, bpb);
    var blocks := BlockCount(size, bpb);
    geo := Geometry(bpb, size, blocks);
    var pad := PadTransaction(geo);
    DivUnique(bpb, bpb, 1, 0);
    var first := Xor(bpb, 0, bpb);
    ms := pad + first;
    ApplyConcat(map[], pad, first);
    KeysKept(geo, Apply(map[], pad), first, 0, 1);
    ghost var bpk := geo.BytesPerKey();
    RangeFlips(Apply(map[], pad), first, bpk, 0, 1, 0);
    forall b: nat
      ensures Bit(Apply(map[], ms), bpk, b) <==> b == 0 || geo.Usable() <= b < geo.blocks
    {
      RangeFlips(Apply(map[], pad), first, bpk, 0, 1, b);
      ZeroUsable(geo.Usable(), blocks);
    }
  }

  /** The part of `create` that marks the blocks past the end of the device. */
  method PadTransaction(geo: Geometry) returns (ms: seq<Merge>)
    requires geo.Valid()
    ensures Sized(Apply(map[], ms)) && KeysOk(geo, Apply(map[], ms))
    ensures forall b: nat :: Bit(Apply(map[], ms), geo.BytesPerKey(), b) <==> geo.Usable() <= b < geo.blocks
  {
    var size, bpb := geo.size, geo.bpb;
    var end := geo.blocks * bpb;
    ghost var n, bpk := geo.Usable(), geo.BytesPerKey();
    DivMod(size, bpb);
    if size < end {
      var length := end - size;
      PadLength(n, geo.blocks, bpb);
      ms := Xor(bpb, size, length);
      assert size + length == end;
      KeysKept(geo, map[], ms, n / BLOCKS_PER_KEY, (geo.blocks - 1) / BLOCKS_PER_KEY + 1);
      PadFlips(ms, bpk, n, geo.blocks);
    } else {
      ms := [];
      PadEmpty(n, geo.blocks, bpb);
    }
  }

  lemma PadFlips(ms: seq<Merge>, bpk: nat, lo: nat, hi: nat)
    requires FlipsExactly(ms, bpk, lo, hi)
    ensures Sized(Apply(map[], ms))
    ensures forall b: nat :: Bit(Apply(map[], ms), bpk, b) <==> lo <= b < hi
  {
    RangeFlips(map[], ms, bpk, lo, hi, 0);
    forall b: nat ensures Bit(Apply(map[], ms), bpk, b) <==> lo <= b < hi {
      RangeFlips(map[], ms, bpk, lo, hi, b);
    }
  }

  lemma PadLength(n: nat, blocks: nat, bpb: nat)
    requires 0 < bpb && n * bpb < blocks * bpb
    ensures n < blocks && (blocks * bpb - n * bpb) % bpb == 0 && blocks * bpb / bpb == blocks
  {
    if blocks <= n {
      MulLe(blocks, n, bpb);
      assert false;
    }
    assert blocks * bpb - n * bpb == (blocks - n) * bpb;
    ProductDivides(blocks - n, bpb);
    ProductDivides(blocks, bpb);
  }

  lemma PadEmpty(n: nat, blocks: nat, bpb: nat)
    requires 0 < bpb && n <= blocks && blocks * bpb <= n * bpb
    ensures n == blocks
  {
    if n < blocks {
      MulLe(n + 1, blocks, bpb);
      assert false;
    }
  }

  lemma ZeroUsable(n: nat, blocks: nat)
    requires n <= blocks < n + BLOCKS_PER_KEY && blocks % BLOCKS_PER_KEY == 0
    ensures !(n <= 0 < blocks)
  {
  }
}
