/**
 The persistent free-space bitmap (`bluestore/bitmap_freelist_manager.cc`), kept
 as 128-block values in a sparse store that is updated only by XOR merges
 (`kv/merge_op/xor_merge_op.h`, `kv/mem/mem_db.cc`).

 The specification is one flat bitmap: a block is allocated when its key is
 present and its bit is set; a missing key stands for 128 free blocks.
 */
module Freelist {
  import opened IntArith

  const BLOCKS_PER_KEY: nat := 128
  const BYTES_PER_VALUE: nat := 16

  type Value = seq<bv8>
  type Store = map<nat, Value>

  // ---- bits

  function Mask(k: nat): bv8
    requires k < 8
  {
    if k == 0 then 1 else if k == 1 then 2 else if k == 2 then 4 else if k == 3 then 8
    else if k == 4 then 16 else if k == 5 then 32 else if k == 6 then 64 else 128
  }

  predicate TestBit(v: Value, i: nat)
    requires i < 8 * |v|
  {
    v[i / 8] & Mask(i % 8) != 0
  }

  function Flip(v: Value, i: nat): Value
    requires i < 8 * |v|
  {
    v[i / 8 := v[i / 8] ^ Mask(i % 8)]
  }

  /** `XorMergeOperator::merge`: bytewise, up to the shorter operand. */
  function XorValues(a: Value, b: Value): Value {
    seq(if |a| < |b| then |a| else |b|, i requires 0 <= i < |a| && i < |b| => a[i] ^ b[i])
  }

  lemma XorByte(a: bv8, b: bv8, k: nat)
    requires k < 8
    ensures ((a ^ b) & Mask(k) != 0) <==> ((a & Mask(k) != 0) != (b & Mask(k) != 0))
  {
    var m := Mask(k);
    assert m == 1 || m == 2 || m == 4 || m == 8 || m == 16 || m == 32 || m == 64 || m == 128;
  }

  lemma MasksApart(j: nat, k: nat)
    requires j < 8 && k < 8
    ensures Mask(j) & Mask(k) != 0 <==> j == k
  {
  }

  lemma FlipByte(a: bv8, j: nat, k: nat)
    requires j < 8 && k < 8
    ensures ((a ^ Mask(j)) & Mask(k) != 0) <==> ((a & Mask(k) != 0) != (j == k))
  {
    XorByte(a, Mask(j), k);
    MasksApart(j, k);
  }

  lemma SameBit(i: nat, j: nat)
    ensures i == j <==> i / 8 == j / 8 && i % 8 == j % 8
  {
  }

  lemma FlipTest(v: Value, i: nat, j: nat)
    requires i < 8 * |v| && j < 8 * |v|
    ensures TestBit(Flip(v, i), j) <==> (TestBit(v, j) != (i == j))
  {
    SameBit(i, j);
    if i / 8 == j / 8 {
      assert Flip(v, i)[j / 8] == v[j / 8] ^ Mask(i % 8);
      FlipByte(v[j / 8], i % 8, j % 8);
    } else {
      assert Flip(v, i)[j / 8] == v[j / 8];
    }
  }

  lemma XorTest(a: Value, b: Value, i: nat)
    requires |a| == |b| && i < 8 * |a|
    ensures TestBit(XorValues(a, b), i) <==> (TestBit(a, i) != TestBit(b, i))
  {
    XorByte(a[i / 8], b[i / 8], i % 8);
  }

  method MergeXor(a: Value, b: Value) returns (r: Value)
    ensures r == XorValues(a, b)
  {
    var count := if |a| < |b| then |a| else |b|;
    r := [];
    var i := 0;
    while i < count
      invariant 0 <= i <= count && |r| == i
      invariant forall k :: 0 <= k < i ==> r[k] == a[k] ^ b[k]
    {
      r := r + [a[i] ^ b[i]];
      i := i + 1;
    }
  }

  const Zero: Value := seq(BYTES_PER_VALUE, _ => 0)
  const AllSet: Value := seq(BYTES_PER_VALUE, _ => 0xff)

  lemma ZeroTest(i: nat)
    requires i < BLOCKS_PER_KEY
    ensures !TestBit(Zero, i) && TestBit(AllSet, i)
  {
    assert 0 & Mask(i % 8) == 0;
    assert 0xff & Mask(i % 8) == Mask(i % 8);
  }

  /** The bit loops of `_xor`: exactly the bits `lo..hi` of a zeroed value are set. */
  method BitsBetween(lo: nat, hi: nat) returns (p: Value)
    requires lo <= hi <= BLOCKS_PER_KEY
    ensures |p| == BYTES_PER_VALUE
    ensures forall k :: 0 <= k < BLOCKS_PER_KEY ==> (TestBit(p, k) <==> lo <= k < hi)
  {
    p := Zero;
    var i := lo;
    forall k | 0 <= k < BLOCKS_PER_KEY ensures !TestBit(p, k) {
      ZeroTest(k);
    }
    while i < hi
      invariant lo <= i <= hi && |p| == BYTES_PER_VALUE
      invariant forall k :: 0 <= k < BLOCKS_PER_KEY ==> (TestBit(p, k) <==> lo <= k < i)
    {
      var q := Flip(p, i);
      forall k | 0 <= k < BLOCKS_PER_KEY ensures TestBit(q, k) <==> lo <= k < i + 1 {
        FlipTest(p, i, k);
      }
      p := q;
      i := i + 1;
    }
  }

  // ---- the store and the flat bitmap

  /** One merge operation of a transaction. */
  datatype Merge = Merge(key: nat, value: Value)

  function ApplyMerge(st: Store, m: Merge): Store {
    st[m.key := if m.key in st then XorValues(st[m.key], m.value) else m.value]
  }

  function Apply(st: Store, ms: seq<Merge>): Store
    decreases ms
  {
    if ms == [] then st else Apply(ApplyMerge(st, ms[0]), ms[1..])
  }

  /** Applies a transaction, merge by merge. */
  method SubmitTransaction(st: Store, ms: seq<Merge>) returns (r: Store)
    ensures r == Apply(st, ms)
  {
    r := st;
    var i := 0;
    while i < |ms|
      invariant 0 <= i <= |ms|
      invariant Apply(r, ms[i..]) == Apply(st, ms)
    {
      assert ms[i..][0] == ms[i] && ms[i..][1..] == ms[i + 1..];
      if ms[i].key in r {
        var v := MergeXor(r[ms[i].key], ms[i].value);
        r := r[ms[i].key := v];
      } else {
        r := r[ms[i].key := ms[i].value];
      }
      i := i + 1;
    }
    assert ms[i..] == [];
  }

  ghost predicate Sized(st: Store) {
    forall k :: k in st ==> |st[k]| == BYTES_PER_VALUE
  }

  ghost predicate SizedMerges(ms: seq<Merge>) {
    forall i :: 0 <= i < |ms| ==> |ms[i].value| == BYTES_PER_VALUE
  }

  /** Whether block `i` of the key at byte offset `key` is allocated. */
  predicate KeyBit(st: Store, key: nat, i: nat)
    requires i < BLOCKS_PER_KEY
  {
    key in st && i < 8 * |st[key]| && TestBit(st[key], i)
  }

  lemma {:induction false} KeyOrder(a: nat, b: nat, bpk: nat)
    requires 0 < bpk
    ensures a < b <==> Times(a, bpk) < Times(b, bpk)
    ensures a == b <==> Times(a, bpk) == Times(b, bpk)
    decreases a + b
  {
    if a != 0 && b != 0 {
      KeyOrder(a - 1, b - 1, bpk);
    } else if a != 0 {
      TimesIs(a, bpk);
    } else if b != 0 {
      TimesIs(b, bpk);
    }
  }

  /** The flat bitmap: whether block `b` is allocated. */
  predicate Bit(st: Store, bpk: nat, b: nat) {
    KeyBit(st, Times(b / BLOCKS_PER_KEY, bpk), b % BLOCKS_PER_KEY)
  }

  lemma MergeFlips(st: Store, m: Merge, key: nat, i: nat)
    requires Sized(st) && |m.value| == BYTES_PER_VALUE && i < BLOCKS_PER_KEY
    ensures Sized(ApplyMerge(st, m))
    ensures KeyBit(ApplyMerge(st, m), key, i) <==> (KeyBit(st, key, i) != (key == m.key && TestBit(m.value, i)))
  {
    if key == m.key && key in st {
      XorTest(st[key], m.value, i);
    }
  }

  /** How often the transaction flips block `i` of `key`, modulo two. */
  predicate Flips(ms: seq<Merge>, key: nat, i: nat)
    requires i < BLOCKS_PER_KEY && SizedMerges(ms)
    decreases ms
  {
    ms != [] && ((ms[0].key == key && TestBit(ms[0].value, i)) != Flips(ms[1..], key, i))
  }

  /** A transaction of merges flips each block by the parity of its merges, whatever the store held. */
  lemma {:induction false} ApplyFlips(st: Store, ms: seq<Merge>, key: nat, i: nat)
    requires Sized(st) && SizedMerges(ms) && i < BLOCKS_PER_KEY
    ensures Sized(Apply(st, ms))
    ensures KeyBit(Apply(st, ms), key, i) <==> (KeyBit(st, key, i) != Flips(ms, key, i))
    decreases ms
  {
    if ms != [] {
      MergeFlips(st, ms[0], key, i);
      ApplyFlips(ApplyMerge(st, ms[0]), ms[1..], key, i);
    }
  }

  lemma {:induction false} FlipsConcat(a: seq<Merge>, b: seq<Merge>, key: nat, i: nat)
    requires i < BLOCKS_PER_KEY && SizedMerges(a) && SizedMerges(b)
    ensures SizedMerges(a + b)
    ensures Flips(a + b, key, i) <==> (Flips(a, key, i) != Flips(b, key, i))
    decreases a
  {
    if a == [] {
      assert a + b == b;
    } else {
      assert (a + b)[1..] == a[1..] + b;
      FlipsConcat(a[1..], b, key, i);
    }
  }
}
