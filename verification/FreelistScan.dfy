/**
 `enumerate_reset` and `enumerate_next` of the freelist manager: a scan that
 resumes where the last call stopped, alternating a search for a clear bit and a
 search for a set bit over the keys that are present.
 */
module FreelistScan {
  import opened Freelist
  import opened FreelistManager
  import opened FreelistEnumerate
  import opened IntArith

  // ---- the specification: maximal free runs of a flat bitmap

  /** The first free block at or after `b`, or the number of blocks. */
  function NextFree(bits: seq<bool>, b: nat): (r: nat)
    requires b <= |bits|
    ensures b <= r <= |bits|
    decreases |bits| - b
  {
    if b == |bits| || !bits[b] then b else NextFree(bits, b + 1)
  }

  /** The first allocated block at or after `b`, or the number of blocks. */
  function NextSet(bits: seq<bool>, b: nat): (r: nat)
    requires b <= |bits|
    ensures b <= r <= |bits|
    decreases |bits| - b
  {
    if b == |bits| || bits[b] then b else NextSet(bits, b + 1)
  }

  lemma {:induction false} NextFreeIs(bits: seq<bool>, b: nat)
    requires b <= |bits|
    ensures var r := NextFree(bits, b);
            (r < |bits| ==> !bits[r]) && forall c :: b <= c < r ==> bits[c]
    decreases |bits| - b
  {
    if b < |bits| && bits[b] {
      NextFreeIs(bits, b + 1);
    }
  }

  lemma {:induction false} NextSetIs(bits: seq<bool>, b: nat)
    requires b <= |bits|
    ensures var r := NextSet(bits, b);
            (r < |bits| ==> bits[r]) && forall c :: b <= c < r ==> !bits[c]
    decreases |bits| - b
  {
    if b < |bits| && !bits[b] {
      NextSetIs(bits, b + 1);
    }
  }

  datatype Run = Run(start: nat, end: nat)

  /** The free runs from block `b` on, in ascending order. */
  function Runs(bits: seq<bool>, b: nat): seq<Run>
    requires b <= |bits|
    decreases |bits| - b
  {
    var s := NextFree(bits, b);
    if s == |bits| then []
    else
      NextFreeIs(bits, b);
      var e := NextSet(bits, s);
      [Run(s, e)] + Runs(bits, e)
  }

  /** `r` is a free run after block `lo` that cannot be extended. */
  ghost predicate MaximalRun(bits: seq<bool>, lo: nat, r: Run) {
    && lo <= r.start < r.end <= |bits|
    && (forall c :: r.start <= c < r.end ==> !bits[c])
    && (r.end == |bits| || bits[r.end])
    && (r.start == lo || bits[r.start - 1])
  }

  ghost predicate InRuns(rs: seq<Run>, b: nat) {
    exists k :: 0 <= k < |rs| && rs[k].start <= b < rs[k].end
  }

  lemma {:induction false} RunsMaximal(bits: seq<bool>, b: nat)
    requires b <= |bits|
    ensures forall k :: 0 <= k < |Runs(bits, b)| ==> MaximalRun(bits, b, Runs(bits, b)[k])
    decreases |bits| - b
  {
    var rs := Runs(bits, b);
    if rs != [] {
      var e := rs[0].end;
      NextFreeIs(bits, b);
      NextSetIs(bits, rs[0].start);
      assert MaximalRun(bits, b, rs[0]);
      RunsMaximal(bits, e);
      assert rs[1..] == Runs(bits, e);
      forall k | 0 < k < |rs| ensures MaximalRun(bits, b, rs[k]) {
        assert rs[k] == rs[1..][k - 1];
        assert MaximalRun(bits, e, rs[k]);
      }
    }
  }

  lemma {:induction false} RunsAscend(bits: seq<bool>, b: nat)
    requires b <= |bits|
    ensures forall k :: 0 < k < |Runs(bits, b)| ==> Runs(bits, b)[k - 1].end < Runs(bits, b)[k].start
    decreases |bits| - b
  {
    var rs := Runs(bits, b);
    if rs != [] {
      var e := rs[0].end;
      NextSetIs(bits, rs[0].start);
      RunsAscend(bits, e);
      RunsMaximal(bits, e);
      assert rs[1..] == Runs(bits, e);
      forall k | 0 < k < |rs| ensures rs[k - 1].end < rs[k].start {
        assert rs[k] == rs[1..][k - 1];
        if k == 1 {
          assert MaximalRun(bits, e, rs[1]);
        } else {
          assert rs[k - 1] == rs[1..][k - 2];
        }
      }
    }
  }

  lemma {:induction false} RunsCover(bits: seq<bool>, b: nat, c: nat)
    requires b <= c < |bits| && !bits[c]
    ensures InRuns(Runs(bits, b), c)
    decreases |bits| - b
  {
    var rs := Runs(bits, b);
    NextFreeIs(bits, b);
    assert NextFree(bits, b) <= c;
    var e := rs[0].end;
    if e <= c {
      RunsCover(bits, e, c);
      assert rs[1..] == Runs(bits, e);
      var k :| 0 <= k < |rs[1..]| && rs[1..][k].start <= c < rs[1..][k].end;
      assert rs[k + 1].start <= c < rs[k + 1].end;
    } else {
      assert rs[0].start <= c < rs[0].end;
    }
  }

  /**
   The list is exactly the maximal free runs of a bitmap whose first block and
   whose blocks from `usable` on are allocated: ascending, inside the device, each
   bounded by allocated blocks, together all the free blocks.
   */
  lemma RunsAreMaximal(bits: seq<bool>, usable: nat)
    requires bits != [] ==> bits[0]
    requires usable <= |bits| && forall b :: usable <= b < |bits| ==> bits[b]
    ensures var rs := Runs(bits, 0);
            && (forall k :: 0 <= k < |rs| ==> 0 < rs[k].start < rs[k].end <= usable)
            && (forall k :: 0 < k < |rs| ==> rs[k - 1].end < rs[k].start)
            && (forall k :: 0 <= k < |rs| ==> bits[rs[k].start - 1] && (rs[k].end == |bits| || bits[rs[k].end]))
            && (forall b :: 0 <= b < |bits| ==> (!bits[b] <==> InRuns(rs, b)))
  {
    var rs := Runs(bits, 0);
    RunsMaximal(bits, 0);
    RunsAscend(bits, 0);
    forall k | 0 <= k < |rs| ensures 0 < rs[k].start < rs[k].end <= usable && bits[rs[k].start - 1] {
      assert MaximalRun(bits, 0, rs[k]);
      assert !bits[rs[k].start] && !bits[rs[k].end - 1];
    }
    forall b | 0 <= b < |bits| ensures !bits[b] <==> InRuns(rs, b) {
      if !bits[b] {
        RunsCover(bits, 0, b);
      }
    }
  }

  /** `bits` is the flat bitmap that the store stands for. */
  ghost predicate Flat(geo: Geometry, st: Store, bits: seq<bool>) {
    && |bits| == geo.blocks
    && forall b: nat {:trigger Bit(st, geo.BytesPerKey(), b)} :: b < |bits| ==> bits[b] == Bit(st, geo.BytesPerKey(), b)
  }

  ghost function FlatBits(geo: Geometry, st: Store): (bits: seq<bool>)
    ensures Flat(geo, st, bits)
  {
    seq(geo.blocks, b requires 0 <= b => Bit(st, geo.BytesPerKey(), b))
  }

  // ---- bit scans of one value

  method GetNextClearBit(bl: Value, start: nat) returns (r: int)
    ensures r == -1 || start <= r < 8 * |bl|
    ensures r >= 0 ==> !TestBit(bl, r)
    ensures forall k :: start <= k < (if r < 0 then 8 * |bl| else r) ==> TestBit(bl, k)
  {
    var i := start;
    while i < 8 * |bl|
      invariant start <= i
      invariant forall k :: start <= k < i && k < 8 * |bl| ==> TestBit(bl, k)
    {
      if !TestBit(bl, i) {
        return i;
      }
      i := i + 1;
    }
    return -1;
  }

  method GetNextSetBit(bl: Value, start: nat) returns (r: int)
    ensures r == -1 || start <= r < 8 * |bl|
    ensures r >= 0 ==> TestBit(bl, r)
    ensures forall k :: start <= k < (if r < 0 then 8 * |bl| else r) ==> !TestBit(bl, k)
  {
    var i := start;
    while i < 8 * |bl|
      invariant start <= i
      invariant forall k :: start <= k < i && k < 8 * |bl| ==> !TestBit(bl, k)
    {
      if TestBit(bl, i) {
        return i;
      }
      i := i + 1;
    }
    return -1;
  }

  /** All the scan needs to know about the geometry. */
  ghost predicate WholeKeys(geo: Geometry) {
    0 < geo.bpb && geo.blocks == BLOCKS_PER_KEY * geo.Groups() && 0 < geo.Groups()
  }

  // ---- the keys in order

  /** `keys` are the store's keys in ascending order, and `gs` their numbers. */
  ghost predicate Listing(geo: Geometry, st: Store, keys: seq<nat>, gs: seq<nat>) {
    && |keys| == |gs|
    && (forall j :: 0 <= j < |gs| ==> keys[j] in st && keys[j] == Times(gs[j], geo.BytesPerKey()) && gs[j] < geo.Span())
    && (forall i, j :: 0 <= i < j < |gs| ==> gs[i] < gs[j])
    && (forall k :: k in st ==> k in keys)
  }

  lemma SplitBlock(g: nat, i: nat)
    requires i < BLOCKS_PER_KEY
    ensures (BLOCKS_PER_KEY * g + i) / BLOCKS_PER_KEY == g && (BLOCKS_PER_KEY * g + i) % BLOCKS_PER_KEY == i
  {
  }

  lemma GroupBit(st: Store, bpk: nat, g: nat, i: nat)
    requires i < BLOCKS_PER_KEY
    ensures Bit(st, bpk, BLOCKS_PER_KEY * g + i) == KeyBit(st, Times(g, bpk), i)
  {
    SplitBlock(g, i);
  }

  /** Keys that lie strictly between two neighbours of the listing, or beyond its end, are missing. */
  lemma MissingKey(geo: Geometry, st: Store, keys: seq<nat>, gs: seq<nat>, j: nat, g: nat)
    requires WholeKeys(geo) && Listing(geo, st, keys, gs) && j < |gs| && gs[j] < g && (j + 1 < |gs| ==> g < gs[j + 1])
    ensures Times(g, geo.BytesPerKey()) !in st
  {
    if Times(g, geo.BytesPerKey()) in st {
      var k :| 0 <= k < |keys| && keys[k] == Times(g, geo.BytesPerKey());
      KeyOrder(gs[k], g, geo.BytesPerKey());
      assert false;
    }
  }

  /** All blocks between the end of key `j` and the start of the next present key are free. */
  lemma GapFree(geo: Geometry, st: Store, bits: seq<bool>, keys: seq<nat>, gs: seq<nat>, j: nat, b: nat)
    requires WholeKeys(geo) && Flat(geo, st, bits) && Listing(geo, st, keys, gs)
    requires j < |gs| && BLOCKS_PER_KEY * (gs[j] + 1) <= b < |bits|
    requires j + 1 < |gs| ==> b < BLOCKS_PER_KEY * gs[j + 1]
    ensures !bits[b]
  {
    MissingKey(geo, st, keys, gs, j, b / BLOCKS_PER_KEY);
    assert !Bit(st, geo.BytesPerKey(), b);
  }

  /** A byte offset built from a key and a bit is the block's number times the block size. */
  lemma OffsetIs(g: nat, i: nat, bpb: nat)
    ensures Times(g, BLOCKS_PER_KEY * bpb) + i * bpb == Times(BLOCKS_PER_KEY * g + i, bpb)
  {
    TimesIs(g, BLOCKS_PER_KEY * bpb);
    TimesIs(BLOCKS_PER_KEY * g + i, bpb);
    Distribute(BLOCKS_PER_KEY * g + i, g, i, bpb);
  }

  /** Comparing a key's offset with the device size is comparing key numbers. */
  lemma OffsetBelowSize(geo: Geometry, g: nat)
    requires geo.Valid()
    ensures Times(g, geo.BytesPerKey()) < geo.size <==> g < geo.Groups()
  {
    var n := geo.Usable();
    OffsetIs(g, 0, geo.bpb);
    TimesIs(BLOCKS_PER_KEY * g, geo.bpb);
    DivMod(geo.size, geo.bpb);
    if BLOCKS_PER_KEY * g < n {
      MulLe(BLOCKS_PER_KEY * g + 1, n, geo.bpb);
    } else {
      MulLe(n, BLOCKS_PER_KEY * g, geo.bpb);
    }
  }

  /** Key numbers below the count are exactly those whose offset is below the device size. */
  ghost predicate Edge(geo: Geometry) {
    forall g: nat :: BelowSize(geo, g) <==> g < geo.Groups()
  }

  predicate BelowSize(geo: Geometry, g: nat) {
    Times(g, geo.BytesPerKey()) < geo.size
  }

  lemma EdgeHolds(geo: Geometry)
    requires geo.Valid()
    ensures Edge(geo) && geo.blocks == BLOCKS_PER_KEY * geo.Groups()
    ensures geo.size == 0 <==> geo.Groups() == 0
  {
    forall g: nat ensures BelowSize(geo, g) <==> g < geo.Groups() {
      OffsetBelowSize(geo, g);
    }
    assert BelowSize(geo, 0) <==> 0 < geo.size;
  }

  lemma {:induction false} NextFreeSkips(bits: seq<bool>, a: nat, b: nat)
    requires a <= b <= |bits| && forall c :: a <= c < b ==> bits[c]
    ensures NextFree(bits, a) == NextFree(bits, b)
    decreases b - a
  {
    if a < b {
      NextFreeSkips(bits, a + 1, b);
    }
  }

  lemma {:induction false} NextSetSkips(bits: seq<bool>, a: nat, b: nat)
    requires a <= b <= |bits| && forall c :: a <= c < b ==> !bits[c]
    ensures NextSet(bits, a) == NextSet(bits, b)
    decreases b - a
  {
    if a < b {
      NextSetSkips(bits, a + 1, b);
    }
  }

  /** The value `v` of key number `g` is the flat bitmap's slice for that key. */
  lemma ValueSlice(geo: Geometry, st: Store, bits: seq<bool>, g: nat, v: Value)
    requires WholeKeys(geo) && Flat(geo, st, bits) && g < geo.Groups()
    requires Times(g, geo.BytesPerKey()) in st && st[Times(g, geo.BytesPerKey())] == v && |v| == BYTES_PER_VALUE
    ensures BLOCKS_PER_KEY * (g + 1) <= |bits|
    ensures forall k :: 0 <= k < BLOCKS_PER_KEY ==> bits[BLOCKS_PER_KEY * g + k] == TestBit(v, k)
  {
    forall k | 0 <= k < BLOCKS_PER_KEY ensures bits[BLOCKS_PER_KEY * g + k] == TestBit(v, k) {
      GroupBit(st, geo.BytesPerKey(), g, k);
    }
  }

  /** Where a search of one value leaves the search for a free block. */
  lemma ScanClear(geo: Geometry, st: Store, bits: seq<bool>, g: nat, v: Value, pos: nat, p: int)
    requires WholeKeys(geo) && Flat(geo, st, bits) && g < geo.Groups()
    requires Times(g, geo.BytesPerKey()) in st && st[Times(g, geo.BytesPerKey())] == v && |v| == BYTES_PER_VALUE
    requires pos <= BLOCKS_PER_KEY && (p < 0 || pos <= p < BLOCKS_PER_KEY)
    requires forall k :: pos <= k < (if p < 0 then BLOCKS_PER_KEY else p) ==> TestBit(v, k)
    requires p >= 0 ==> !TestBit(v, p)
    ensures BLOCKS_PER_KEY * (g + 1) <= |bits|
    ensures NextFree(bits, BLOCKS_PER_KEY * g + pos) ==
            if p < 0 then NextFree(bits, BLOCKS_PER_KEY * (g + 1)) else BLOCKS_PER_KEY * g + p
  {
    ValueSlice(geo, st, bits, g, v);
    var base := BLOCKS_PER_KEY * g;
    var to := base + (if p < 0 then BLOCKS_PER_KEY else p);
    forall c | base + pos <= c < to ensures bits[c] {
      assert bits[base + (c - base)] == TestBit(v, c - base);
    }
    NextFreeSkips(bits, base + pos, to);
    if p >= 0 {
      assert bits[base + p] == TestBit(v, p);
    }
  }

  /** Where a search of one value leaves the search for an allocated block. */
  lemma ScanSet(geo: Geometry, st: Store, bits: seq<bool>, g: nat, v: Value, pos: nat, p: int)
    requires WholeKeys(geo) && Flat(geo, st, bits) && g < geo.Groups()
    requires Times(g, geo.BytesPerKey()) in st && st[Times(g, geo.BytesPerKey())] == v && |v| == BYTES_PER_VALUE
    requires pos <= BLOCKS_PER_KEY && (p < 0 || pos <= p < BLOCKS_PER_KEY)
    requires forall k :: pos <= k < (if p < 0 then BLOCKS_PER_KEY else p) ==> !TestBit(v, k)
    requires p >= 0 ==> TestBit(v, p)
    ensures BLOCKS_PER_KEY * (g + 1) <= |bits|
    ensures NextSet(bits, BLOCKS_PER_KEY * g + pos) ==
            if p < 0 then NextSet(bits, BLOCKS_PER_KEY * (g + 1)) else BLOCKS_PER_KEY * g + p
  {
    ValueSlice(geo, st, bits, g, v);
    var base := BLOCKS_PER_KEY * g;
    var to := base + (if p < 0 then BLOCKS_PER_KEY else p);
    forall c | base + pos <= c < to ensures !bits[c] {
      assert bits[base + (c - base)] == TestBit(v, c - base);
    }
    NextSetSkips(bits, base + pos, to);
    if p >= 0 {
      assert bits[base + p] == TestBit(v, p);
    }
  }

  /** Beyond the last present key everything is free. */
  lemma AfterLast(geo: Geometry, st: Store, bits: seq<bool>, keys: seq<nat>, gs: seq<nat>)
    requires WholeKeys(geo) && Flat(geo, st, bits) && Listing(geo, st, keys, gs) && gs != []
    requires BLOCKS_PER_KEY * (gs[|gs| - 1] + 1) <= |bits|
    ensures var s := BLOCKS_PER_KEY * (gs[|gs| - 1] + 1);
            NextFree(bits, s) == s && NextSet(bits, s) == |bits|
  {
    var s := BLOCKS_PER_KEY * (gs[|gs| - 1] + 1);
    forall b | s <= b < |bits| ensures !bits[b] {
      GapFree(geo, st, bits, keys, gs, |gs| - 1, b);
    }
    NextSetSkips(bits, s, |bits|);
  }

  /** Between neighbouring present keys everything is free. */
  lemma BetweenKeys(geo: Geometry, st: Store, bits: seq<bool>, keys: seq<nat>, gs: seq<nat>, j: nat)
    requires WholeKeys(geo) && Flat(geo, st, bits) && Listing(geo, st, keys, gs) && j + 1 < |gs|
    ensures gs[j] < gs[j + 1] && BLOCKS_PER_KEY * gs[j + 1] <= |bits|
    ensures var s := BLOCKS_PER_KEY * (gs[j] + 1);
            && NextSet(bits, s) == NextSet(bits, BLOCKS_PER_KEY * gs[j + 1])
            && (gs[j] + 1 < gs[j + 1] ==> NextFree(bits, s) == s)
  {
    assert gs[j] < gs[j + 1];
    var s := BLOCKS_PER_KEY * (gs[j] + 1);
    forall b | s <= b < BLOCKS_PER_KEY * gs[j + 1] ensures !bits[b] {
      GapFree(geo, st, bits, keys, gs, j, b);
    }
    NextSetSkips(bits, s, BLOCKS_PER_KEY * gs[j + 1]);
  }

  ghost function NumberOf(geo: Geometry, key: nat): (g: nat)
    requires KeyIn(key, geo.BytesPerKey(), 0, geo.Span())
    ensures g < geo.Span() && key == Times(g, geo.BytesPerKey())
  {
    var g: nat :| 0 <= g < geo.Span() && key == Times(g, geo.BytesPerKey());
    g
  }

  lemma ListingFromKeys(geo: Geometry, st: Store, keys: seq<nat>) returns (gs: seq<nat>)
    requires WellFormed(geo, st)
    requires forall i, j :: 0 <= i < j < |keys| ==> keys[i] < keys[j]
    requires forall k :: k in keys <==> k in st
    ensures Listing(geo, st, keys, gs)
  {
    gs := seq(|keys|, j requires 0 <= j < |keys| => assert keys[j] in st; NumberOf(geo, keys[j]));
    forall i, j | 0 <= i < j < |gs| ensures gs[i] < gs[j] {
      KeyOrder(gs[i], gs[j], geo.BytesPerKey());
    }
  }

  /** The end of a run, computed in bytes, and its start are in order and inside the bitmap. */
  lemma RunEnd(geo: Geometry, g: nat, i: nat, s: nat, e: nat)
    requires 0 < geo.bpb && e == BLOCKS_PER_KEY * g + i && s <= e <= geo.blocks
    ensures Times(g, geo.BytesPerKey()) + i * geo.bpb == Times(e, geo.bpb)
    ensures Times(s, geo.bpb) <= Times(e, geo.bpb) <= geo.blocks * geo.bpb == Times(geo.blocks, geo.bpb)
  {
    OffsetIs(g, i, geo.bpb);
    KeyOrder(e, geo.blocks, geo.bpb);
    KeyOrder(s, e, geo.bpb);
    TimesIs(geo.blocks, geo.bpb);
  }

  /** The key iterator: the store's keys, listed once in ascending order. */
  method ListKeys(st: Store) returns (keys: seq<nat>)
    ensures forall i, j :: 0 <= i < j < |keys| ==> keys[i] < keys[j]
    ensures forall k :: k in keys <==> k in st
  {
    keys := [];
    var todo := st.Keys;
    while todo != {}
      invariant todo <= st.Keys
      invariant forall i, j :: 0 <= i < j < |keys| ==> keys[i] < keys[j]
      invariant forall k :: k in keys <==> k in st && k !in todo
      invariant forall k, i :: k in todo && 0 <= i < |keys| ==> keys[i] < k
      decreases todo
    {
      var k := LeastOf(todo);
      keys := keys + [k];
      todo := todo - {k};
    }
  }

  method LeastOf(s: set<nat>) returns (m: nat)
    requires s != {}
    ensures m in s && forall k :: k in s ==> m <= k
  {
    m :| m in s;
    var rest := s - {m};
    while rest != {}
      invariant m in s && rest <= s && forall k :: k in s && k !in rest ==> m <= k
      decreases rest
    {
      var k :| k in rest;
      rest := rest - {k};
      if k < m {
        m := k;
      }
    }
  }

  /** The enumeration state kept between calls. */
  class Enumerator {
    const geo: Geometry
    var keys: seq<nat>
    ghost var gs: seq<nat>
    var at: int
    var offset: nat
    var bl: Value
    var pos: int
    /** The block up to which free runs have been returned. */
    ghost var cursor: nat

    constructor (geo: Geometry)
      ensures this.geo == geo && offset == 0 && pos == 0 && cursor == 0
    {
      this.geo := geo;
      keys, gs, at, offset, bl, pos, cursor := [], [], -1, 0, [], 0, 0;
    }

    /** The iterator stands on a key and the scan at a bit of its value. */
    ghost predicate Placed(st: Store)
      reads this
    {
      && 0 <= at < |keys| && keys[at] in st
      && offset == keys[at] && bl == st[keys[at]] && 0 <= pos <= BLOCKS_PER_KEY
    }

    ghost predicate OnKey(st: Store)
      reads this
    {
      Listing(geo, st, keys, gs) && Placed(st)
    }

    ghost function Here(): nat
      requires 0 <= at < |gs| && 0 <= pos
      reads this
    {
      BLOCKS_PER_KEY * gs[at] + pos
    }

    /** Before the first call, between calls, and after the last. */
    ghost predicate Ready(st: Store)
      reads this
    {
      || (offset == 0 && pos == 0 && cursor == 0)
      || (0 < cursor && OnKey(st) && pos < BLOCKS_PER_KEY && KeyBit(st, offset, pos)
          && cursor == Here() < geo.blocks)
      || (0 < offset && geo.size <= offset && cursor == geo.blocks)
    }

    method Reset()
      modifies this
      ensures offset == 0 && pos == 0 && cursor == 0
    {
      offset, pos, bl, at, cursor := 0, 0, [], -1, 0;
    }

    /** Search the current value for a clear bit. */
    method FindClear(st: Store, ghost bits: seq<bool>) returns (p: int)
      requires WholeKeys(geo) && Sized(st) && Flat(geo, st, bits) && OnKey(st)
      ensures p == -1 || pos <= p < BLOCKS_PER_KEY
      ensures BLOCKS_PER_KEY * (gs[at] + 1) <= |bits|
      ensures NextFree(bits, Here()) ==
              if p < 0 then NextFree(bits, BLOCKS_PER_KEY * (gs[at] + 1)) else BLOCKS_PER_KEY * gs[at] + p
    {
      p := GetNextClearBit(bl, pos);
      ScanClear(geo, st, bits, gs[at], bl, pos, p);
    }

    /** Search the current value for a set bit. */
    method FindSet(st: Store, ghost bits: seq<bool>) returns (p: int)
      requires WholeKeys(geo) && Sized(st) && Flat(geo, st, bits) && OnKey(st)
      ensures p == -1 || (pos <= p < BLOCKS_PER_KEY && KeyBit(st, offset, p))
      ensures BLOCKS_PER_KEY * (gs[at] + 1) <= |bits|
      ensures NextSet(bits, Here()) ==
              if p < 0 then NextSet(bits, BLOCKS_PER_KEY * (gs[at] + 1)) else BLOCKS_PER_KEY * gs[at] + p
    {
      p := GetNextSetBit(bl, pos);
      ScanSet(geo, st, bits, gs[at], bl, pos, p);
    }

    /** Advance the iterator to the next present key; the missing keys in between are free. */
    method NextKey(st: Store, ghost bits: seq<bool>)
      requires WholeKeys(geo) && Flat(geo, st, bits) && OnKey(st) && at + 1 < |keys|
      modifies `at, `offset, `bl, `pos
      ensures Placed(st) && at == old(at) + 1 && pos == 0
      ensures Here() <= |bits| && old(gs[at]) < gs[at]
      ensures var s := BLOCKS_PER_KEY * (old(gs[at]) + 1);
              && NextSet(bits, s) == NextSet(bits, Here())
              && (s < Here() ==> NextFree(bits, s) == s)
      ensures Times(old(gs[at]) + 1, geo.BytesPerKey()) < offset <==> old(gs[at]) + 1 < gs[at]
    {
      BetweenKeys(geo, st, bits, keys, gs, at);
      KeyOrder(gs[at] + 1, gs[at + 1], geo.BytesPerKey());
      at := at + 1;
      offset, bl, pos := keys[at], st[keys[at]], 0;
    }

    /** A clear bit is found: the block it stands for. */
    ghost predicate FoundFree(st: Store, bits: seq<bool>, off: nat, s: nat)
      reads this
    {
      && OnKey(st) && Here() <= |bits| && s < |bits| && NextSet(bits, s) == NextSet(bits, Here())
      && off == Times(s, geo.bpb)
    }

    /** The keys are exhausted: everything from block `s` on is free. */
    ghost predicate RanOut(bits: seq<bool>, off: nat, s: nat)
      reads this
    {
      && at == -1 && pos == 0 && 0 < offset && 0 < s <= |bits| && NextSet(bits, s) == |bits| && s % BLOCKS_PER_KEY == 0
      && offset == off == Times(s / BLOCKS_PER_KEY, geo.BytesPerKey()) && off == Times(s, geo.bpb)
    }

    method LeaveLastKey(st: Store, ghost bits: seq<bool>) returns (off: nat, ghost s: nat)
      requires WholeKeys(geo) && Flat(geo, st, bits) && OnKey(st) && at + 1 == |keys|
      requires BLOCKS_PER_KEY * (gs[at] + 1) <= |bits|
      modifies `at, `offset, `bl, `pos
      ensures s == BLOCKS_PER_KEY * (old(gs[at]) + 1) && NextFree(bits, s) == s && RanOut(bits, off, s)
    {
      s := BLOCKS_PER_KEY * (gs[at] + 1);
      OffsetIs(gs[at] + 1, 0, geo.bpb);
      AfterLast(geo, st, bits, keys, gs);
      offset := offset + geo.BytesPerKey();
      at, bl, pos := -1, [], 0;
      off := offset;
    }

    /** One round of the first phase: `done` when a clear bit or a gap was reached. */
    method StepFree(st: Store, ghost bits: seq<bool>) returns (done: bool, off: nat, ghost s: nat)
      requires WholeKeys(geo) && Sized(st) && Flat(geo, st, bits) && OnKey(st)
      modifies `at, `offset, `bl, `pos
      ensures old(Here()) <= |bits|
      ensures done ==> s == NextFree(bits, old(Here())) && (FoundFree(st, bits, off, s) || RanOut(bits, off, s))
      ensures !done ==> Placed(st) && at == old(at) + 1 && Here() <= |bits|
      ensures !done ==> NextFree(bits, old(Here())) == NextFree(bits, Here())
    {
      ghost var g := gs[at];
      var p := FindClear(st, bits);
      if p >= 0 {
        pos := p;
        OffsetIs(g, p, geo.bpb);
        return true, offset + pos * geo.bpb, BLOCKS_PER_KEY * g + p;
      }
      if at + 1 == |keys| {
        off, s := LeaveLastKey(st, bits);
        return true, off, s;
      }
      var next := offset + geo.BytesPerKey();
      NextKey(st, bits);
      if next < offset {
        OffsetIs(g + 1, 0, geo.bpb);
        return true, next, BLOCKS_PER_KEY * (g + 1);
      }
      return false, 0, 0;
    }

    /** First phase: move on to the next clear bit, or to the start of a gap between keys. */
    method SeekFree(st: Store, ghost bits: seq<bool>) returns (off: nat, ghost s: nat)
      requires WholeKeys(geo) && Sized(st) && Flat(geo, st, bits) && OnKey(st)
      modifies `at, `offset, `bl, `pos
      ensures old(Here()) <= |bits| && s == NextFree(bits, old(Here()))
      ensures FoundFree(st, bits, off, s) || RanOut(bits, off, s)
    {
      var done;
      done, off, s := StepFree(st, bits);
      while !done
        invariant done ==> s == NextFree(bits, old(Here())) && (FoundFree(st, bits, off, s) || RanOut(bits, off, s))
        invariant !done ==> Placed(st) && Here() <= |bits| && NextFree(bits, old(Here())) == NextFree(bits, Here())
        decreases !done, if done then 0 else |keys| - at
      {
        done, off, s := StepFree(st, bits);
      }
    }

    /** Second phase: move on to the next set bit, across any gaps; `e` is where the run stops. */
    method SeekSet(st: Store, ghost bits: seq<bool>, ghost s: nat) returns (found: bool, ghost e: nat, ghost last: nat)
      requires WholeKeys(geo) && Sized(st) && Flat(geo, st, bits) && OnKey(st) && s < |bits|
      requires Here() <= |bits| && NextSet(bits, s) == NextSet(bits, Here())
      modifies `at, `offset, `bl, `pos
      ensures e == NextSet(bits, s)
      ensures found ==> OnKey(st) && pos < BLOCKS_PER_KEY && KeyBit(st, offset, pos) && e == Here() < |bits|
      ensures !found ==> last < |keys| && offset == keys[last] && e == |bits|
    {
      while true
        invariant Placed(st) && Here() <= |bits|
        invariant NextSet(bits, s) == NextSet(bits, Here())
        decreases |keys| - at
      {
        ghost var g := gs[at];
        var p := FindSet(st, bits);
        if p >= 0 {
          pos := p;
          return true, BLOCKS_PER_KEY * g + p, 0;
        }
        if at + 1 == |keys| {
          AfterLast(geo, st, bits, keys, gs);
          last := at;
          at, bl, pos := -1, [], 0;
          return false, |bits|, last;
        }
        NextKey(st, bits);
      }
    }

    /** The first call takes the iterator to the first key, which holds block 0. */
    method Start(st: Store)
      requires WellFormed(geo, st) && pos == 0
      modifies `keys, `gs, `at, `offset, `bl
      ensures OnKey(st) && offset == 0 && Here() == 0
    {
      keys := ListKeys(st);
      gs := ListingFromKeys(geo, st, keys);
      assert 0 in st by {
        assert Times(0, geo.BytesPerKey()) == 0;
      }
      assert 0 in keys;
      at := 0;
      offset, bl := keys[0], st[keys[0]];
      KeyOrder(0, gs[0], geo.BytesPerKey());
    }

    /** No set bit follows the free block: the run, if inside the device, ends with the bitmap. */
    method LastRun(ghost bits: seq<bool>, off: nat, ghost s: nat) returns (found: bool, len: nat)
      requires 0 < geo.bpb && s <= |bits| == geo.blocks && off == Times(s, geo.bpb)
      requires (offset < geo.size <==> s < |bits|) && (offset < geo.size || 0 < offset)
      modifies `offset, `pos, `cursor
      ensures (found <==> s < |bits|) && cursor == |bits| && geo.size <= offset && 0 < offset
      ensures found ==> off + len == Times(|bits|, geo.bpb)
    {
      RunEnd(geo, 0, s, s, s);
      TimesIs(geo.blocks, geo.bpb);
      cursor := geo.blocks;
      if offset < geo.size {
        len := geo.blocks * geo.bpb - off;
        offset, pos := geo.size, BLOCKS_PER_KEY;
        return true, len;
      }
      return false, 0;
    }

    /** The run ends at block `e`, where the iterator stands. */
    ghost method StopAt(st: Store, e: nat)
      requires OnKey(st) && pos < BLOCKS_PER_KEY && KeyBit(st, offset, pos) && 0 < e == Here() < geo.blocks
      modifies `cursor
      ensures Ready(st) && cursor == e
    {
      cursor := e;
    }

    /** The second phase with the length it yields; `found` is false when no set bit follows. */
    method FinishRun(st: Store, ghost bits: seq<bool>, off: nat, ghost s: nat) returns (found: bool, len: nat)
      requires WholeKeys(geo) && Edge(geo) && Sized(st) && Flat(geo, st, bits) && FoundFree(st, bits, off, s) && !bits[s]
      modifies `at, `offset, `bl, `pos, `cursor
      ensures found ==> Ready(st) && cursor == NextSet(bits, s) && off + len == Times(cursor, geo.bpb)
      ensures !found ==> offset < geo.size && NextSet(bits, s) == |bits|
    {
      ghost var e;
      ghost var last: nat;
      found, e, last := SeekSet(st, bits, s);
      if found {
        len := RunLength(off, s, e);
        StopAt(st, e);
      } else {
        assert BelowSize(geo, gs[last]);
        len := 0;
      }
    }

    /** The length of the run from `off` to the set bit found. */
    method RunLength(off: nat, ghost s: nat, ghost e: nat) returns (len: nat)
      requires 0 < geo.bpb && 0 <= at < |gs| && 0 <= pos && e == Here() && s <= e <= geo.blocks
      requires off == Times(s, geo.bpb) && offset == Times(gs[at], geo.BytesPerKey())
      ensures off + len == Times(e, geo.bpb)
    {
      var end, stop := geo.blocks * geo.bpb, offset + pos * geo.bpb;
      RunEnd(geo, gs[at], pos, s, e);
      len := (if end < stop then end else stop) - off;
    }

    /** Both phases, from a key the iterator stands on. */
    method Advance(st: Store, ghost bits: seq<bool>) returns (found: bool, off: nat, len: nat)
      requires WholeKeys(geo) && Edge(geo) && Sized(st) && Flat(geo, st, bits) && OnKey(st)
      modifies `at, `offset, `bl, `pos, `cursor
      ensures old(Here()) <= |bits| && cursor <= |bits| && Ready(st)
      ensures var s := NextFree(bits, old(Here()));
              && (found <==> s < |bits|)
              && (found ==> off == Times(s, geo.bpb) && cursor == NextSet(bits, s) && off + len == Times(cursor, geo.bpb))
              && (!found ==> cursor == |bits|)
    {
      ghost var s;
      off, s := SeekFree(st, bits);
      if at != -1 {
        NextFreeIs(bits, old(Here()));
        found, len := FinishRun(st, bits, off, s);
        if found {
          return;
        }
      } else {
        assert BelowSize(geo, s / BLOCKS_PER_KEY) <==> s < |bits|;
      }
      found, len := LastRun(bits, off, s);
    }

    /** `enumerate_next`: the next maximal free run, as a byte offset and length. */
    method EnumerateNext(st: Store) returns (found: bool, off: nat, len: nat)
      requires WellFormed(geo, st) && Ready(st)
      modifies this
      ensures Ready(st) && old(cursor) <= geo.blocks && cursor <= geo.blocks
      ensures var bits := FlatBits(geo, st);
              var s := NextFree(bits, old(cursor));
              && (found <==> s < geo.blocks)
              && (found ==> off == Times(s, geo.bpb) && cursor == NextSet(bits, s) && off + len == Times(cursor, geo.bpb))
              && (!found ==> NextFree(bits, cursor) == geo.blocks)
    {
      EdgeHolds(geo);
      ghost var bits := FlatBits(geo, st);
      if offset == 0 && pos == 0 {
        Start(st);
      }
      if OnKey(st) {
        assert BelowSize(geo, gs[at]) <==> gs[at] < geo.Groups();
      }
      if geo.size <= offset {
        assert cursor == |bits|;
        return false, 0, 0;
      }
      assert OnKey(st) && Here() == cursor;
      found, off, len := Advance(st, bits);
    }
  }

  datatype ByteRun = ByteRun(offset: nat, length: nat)

  /** The byte runs are the block runs, start and end scaled by the block size. */
  ghost predicate InBytes(rs: seq<Run>, res: seq<ByteRun>, bpb: nat) {
    && |res| == |rs|
    && forall k :: 0 <= k < |rs| ==>
         res[k].offset == Times(rs[k].start, bpb) && res[k].offset + res[k].length == Times(rs[k].end, bpb)
  }

  lemma InBytesMore(rs: seq<Run>, res: seq<ByteRun>, bpb: nat, r: Run, b: ByteRun)
    requires InBytes(rs, res, bpb) && b.offset == Times(r.start, bpb) && b.offset + b.length == Times(r.end, bpb)
    ensures InBytes(rs + [r], res + [b], bpb)
  {
  }

  /** `Times(b, bpb)` is `b * bpb`, so a byte run is its block run times the block size. */
  lemma RunInBytes(s: nat, e: nat, bpb: nat, off: nat, len: nat)
    requires s <= e && off == Times(s, bpb) && off + len == Times(e, bpb)
    ensures off == s * bpb && len == (e - s) * bpb
  {
    TimesIs(s, bpb);
    TimesIs(e, bpb);
  }

  lemma RunsStep(bits: seq<bool>, c: nat, done: seq<Run>, all: seq<Run>)
    requires c <= |bits| && done + Runs(bits, c) == all
    ensures var s := NextFree(bits, c);
            if s == |bits| then done == all
            else var e := NextSet(bits, s); s < e && done + [Run(s, e)] + Runs(bits, e) == all
  {
    var s := NextFree(bits, c);
    if s < |bits| {
      NextFreeIs(bits, c);
      var e := NextSet(bits, s);
      assert Runs(bits, c) == [Run(s, e)] + Runs(bits, e);
      assert done + [Run(s, e)] + Runs(bits, e) == done + ([Run(s, e)] + Runs(bits, e));
    }
  }

  /**
   Repeated `enumerate_next` after a reset, until it returns false: exactly the
   maximal free runs of the flat bitmap, in order, each once.
   */
  method EnumerateAll(en: Enumerator, st: Store) returns (res: seq<ByteRun>)
    requires WellFormed(en.geo, st)
    modifies en
    ensures InBytes(Runs(FlatBits(en.geo, st), 0), res, en.geo.bpb)
  {
    ghost var bits := FlatBits(en.geo, st);
    ghost var all := Runs(bits, 0);
    ghost var done: seq<Run> := [];
    res := [];
    en.Reset();
    var more := true;
    while more
      invariant en.Ready(st) && en.cursor <= |bits|
      invariant InBytes(done, res, en.geo.bpb)
      invariant if more then done + Runs(bits, en.cursor) == all else done == all
      decreases more, |bits| - en.cursor
    {
      ghost var c := en.cursor;
      RunsStep(bits, c, done, all);
      var off, len;
      more, off, len := en.EnumerateNext(st);
      if more {
        InBytesMore(done, res, en.geo.bpb, Run(NextFree(bits, c), en.cursor), ByteRun(off, len));
        done := done + [Run(NextFree(bits, c), en.cursor)];
        res := res + [ByteRun(off, len)];
      }
    }
  }

  /** A well-formed store's flat bitmap meets what `RunsAreMaximal` asks, with `usable` the device's blocks. */
  lemma WellFormedBitmap(geo: Geometry, st: Store)
    requires WellFormed(geo, st)
    ensures var bits := FlatBits(geo, st);
            && (bits != [] ==> bits[0])
            && geo.Usable() <= |bits|
            && forall b :: geo.Usable() <= b < |bits| ==> bits[b]
  {
    var bits := FlatBits(geo, st);
    assert bits != [] ==> bits[0] == Bit(st, geo.BytesPerKey(), 0);
    forall b | geo.Usable() <= b < |bits| ensures bits[b] {
      assert bits[b] == Bit(st, geo.BytesPerKey(), b);
    }
  }
}
