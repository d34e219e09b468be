/**
 Extents, extent lists and incremental deltas of a BlueFS file node
 (`bluestore/bluefs_types.h`, `bluestore/bluefs_types.cc`).

 An extent list is a sequence of physical extents; its logical address space is
 the concatenation of the extents.  `Append` is `append_extent`, which grows the
 last extent in place when the new one continues it.  A delta carries the part
 of the list beyond an already logged logical offset.
 */
module BluefsTypes {
  import opened Options

  /** Two extents are never merged into one of this length or more. */
  const MERGE_LIMIT: nat := 0xffff_ffff

  datatype Extent = Extent(bdev: nat, offset: nat, length: nat) {
    function End(): nat {
      offset + length
    }
  }

  predicate Mergeable(a: Extent, b: Extent) {
    a.End() == b.offset && a.bdev == b.bdev && a.length + b.length < MERGE_LIMIT
  }

  function Total(es: seq<Extent>): nat {
    if es == [] then 0 else es[0].length + Total(es[1..])
  }

  ghost predicate Positive(es: seq<Extent>) {
    forall i :: 0 <= i < |es| ==> 0 < es[i].length
  }

  /** The invariant every list built by `append_extent` has. */
  ghost predicate Canonical(es: seq<Extent>) {
    Positive(es) && forall i, j :: 0 <= i && j == i + 1 && j < |es| ==> !Mergeable(es[i], es[j])
  }

  function Append(es: seq<Extent>, e: Extent): seq<Extent> {
    if es != [] && Mergeable(es[|es| - 1], e) then
      es[|es| - 1 := es[|es| - 1].(length := es[|es| - 1].length + e.length)]
    else
      es + [e]
  }

  /** `claim_extents`: append one by one. */
  function Claim(es: seq<Extent>, xs: seq<Extent>): seq<Extent>
    decreases xs
  {
    if xs == [] then es else Claim(Append(es, xs[0]), xs[1..])
  }

  /** The part of the list below logical offset `c`. */
  function Head(es: seq<Extent>, c: nat): seq<Extent> {
    if es == [] || c == 0 then []
    else if es[0].length <= c then [es[0]] + Head(es[1..], c - es[0].length)
    else [es[0].(length := c)]
  }

  /** The part of the list from logical offset `c` on. */
  function Tail(es: seq<Extent>, c: nat): seq<Extent> {
    if es == [] then []
    else if es[0].length <= c then Tail(es[1..], c - es[0].length)
    else [Extent(es[0].bdev, es[0].offset + c, es[0].length - c)] + es[1..]
  }

  /** Logical offset `c` does not fall inside an extent too long to have been merged. */
  predicate Splittable(es: seq<Extent>, c: nat) {
    if es == [] || c == 0 then true
    else if es[0].length <= c then Splittable(es[1..], c - es[0].length)
    else es[0].length < MERGE_LIMIT
  }

  /** Where logical offset `off` lives: the device and the physical address. */
  function Phys(es: seq<Extent>, off: nat): Option<(nat, nat)> {
    if es == [] then None
    else if off < es[0].length then Some((es[0].bdev, es[0].offset + off))
    else Phys(es[1..], off - es[0].length)
  }

  lemma {:induction false} TotalConcat(a: seq<Extent>, b: seq<Extent>)
    ensures Total(a + b) == Total(a) + Total(b)
  {
    if a == [] {
      assert a + b == b;
    } else {
      assert (a + b)[1..] == a[1..] + b;
      TotalConcat(a[1..], b);
    }
  }

  lemma TotalOne(e: Extent)
    ensures Total([e]) == e.length
  {
    assert [e][1..] == [];
  }

  lemma SplitLast(es: seq<Extent>)
    requires es != []
    ensures es == es[..|es| - 1] + [es[|es| - 1]]
    ensures Total(es) == Total(es[..|es| - 1]) + es[|es| - 1].length
  {
    assert es == es[..|es| - 1] + [es[|es| - 1]];
    TotalConcat(es[..|es| - 1], [es[|es| - 1]]);
    TotalOne(es[|es| - 1]);
  }

  /** Appending adds exactly the extent's length and keeps the canonical form. */
  lemma AppendInvariant(es: seq<Extent>, e: Extent)
    ensures Total(Append(es, e)) == Total(es) + e.length
    ensures Canonical(es) && 0 < e.length ==> Canonical(Append(es, e))
  {
    var r := Append(es, e);
    if r == es + [e] {
      TotalConcat(es, [e]);
    } else {
      SplitLast(es);
      SplitLast(r);
      assert r[..|r| - 1] == es[..|es| - 1];
    }
  }

  /** Lengths stay below 2^32 - 1, and an extent that continues the last one is merged into it exactly as long as they do. */
  lemma AppendMerges(es: seq<Extent>, e: Extent)
    ensures |Append(es, e)| == |es| <==>
              es != [] && e.bdev == es[|es| - 1].bdev && e.offset == es[|es| - 1].offset + es[|es| - 1].length
              && es[|es| - 1].length + e.length < 0xffff_ffff
    ensures e.length < 0xffff_ffff && (forall i :: 0 <= i < |es| ==> es[i].length < 0xffff_ffff) ==>
              forall i :: 0 <= i < |Append(es, e)| ==> Append(es, e)[i].length < 0xffff_ffff
  {
  }

  lemma {:induction false} ClaimInvariant(es: seq<Extent>, xs: seq<Extent>)
    ensures Total(Claim(es, xs)) == Total(es) + Total(xs)
    ensures Canonical(es) && Positive(xs) ==> Canonical(Claim(es, xs))
    decreases xs
  {
    if xs != [] {
      AppendInvariant(es, xs[0]);
      ClaimInvariant(Append(es, xs[0]), xs[1..]);
    }
  }

  /** Merging on append never changes the logical-to-physical map. */
  lemma {:induction false} AppendKeepsPhys(es: seq<Extent>, e: Extent, off: nat)
    ensures Phys(Append(es, e), off) == Phys(es + [e], off)
  {
    if |es| <= 1 {
      assert (es + [e])[1..] == if es == [] then [] else [e];
      assert [e][1..] == [] && (es != [] && Mergeable(es[0], e) ==> Append(es, e)[1..] == []);
    } else {
      assert (es + [e])[1..] == es[1..] + [e];
      assert Append(es, e)[1..] == Append(es[1..], e);
      if es[0].length <= off {
        AppendKeepsPhys(es[1..], e, off - es[0].length);
      }
    }
  }

  lemma {:induction false} PhysConcat(a: seq<Extent>, b: seq<Extent>, off: nat)
    ensures Phys(a + b, off) == if off < Total(a) then Phys(a, off) else Phys(b, off - Total(a))
  {
    if a == [] {
      assert a + b == b;
    } else {
      assert (a + b)[1..] == a[1..] + b;
      if a[0].length <= off {
        PhysConcat(a[1..], b, off - a[0].length);
      }
    }
  }

  /** Claiming a list maps addresses as plain concatenation does. */
  lemma {:induction false} ClaimKeepsPhys(es: seq<Extent>, xs: seq<Extent>, off: nat)
    ensures Phys(Claim(es, xs), off) == Phys(es + xs, off)
    decreases xs
  {
    if xs == [] {
      assert es + xs == es;
    } else {
      var r := Append(es, xs[0]);
      ClaimKeepsPhys(r, xs[1..], off);
      PhysConcat(r, xs[1..], off);
      AppendKeepsPhys(es, xs[0], off);
      AppendInvariant(es, xs[0]);
      TotalConcat(es, [xs[0]]);
      PhysConcat(es + [xs[0]], xs[1..], off);
      assert es + xs == (es + [xs[0]]) + xs[1..];
    }
  }

  lemma {:induction false} HeadPhys(es: seq<Extent>, c: nat, off: nat)
    ensures off < c ==> Phys(Head(es, c), off) == Phys(es, off)
  {
    if es != [] && c != 0 {
      if es[0].length <= c {
        assert Head(es, c)[1..] == Head(es[1..], c - es[0].length);
        if es[0].length <= off {
          HeadPhys(es[1..], c - es[0].length, off - es[0].length);
        }
      } else {
        assert Head(es, c)[1..] == [];
      }
    }
  }

  lemma {:induction false} HeadTailTotal(es: seq<Extent>, c: nat)
    ensures Total(Head(es, c)) == if c <= Total(es) then c else Total(es)
    ensures Positive(es) ==> Positive(Head(es, c)) && Positive(Tail(es, c))
  {
    if es != [] {
      if es[0].length <= c {
        HeadTailTotal(es[1..], c - es[0].length);
        assert c != 0 ==> Head(es, c)[1..] == Head(es[1..], c - es[0].length);
      } else if c != 0 {
        assert Head(es, c)[1..] == [];
      }
    }
  }

  /** Growing the list, even in place, does not touch what lies below `c`. */
  lemma {:induction false} HeadAppend(es: seq<Extent>, e: Extent, c: nat)
    requires Positive(es) && c <= Total(es) && Splittable(es, c)
    ensures Head(Append(es, e), c) == Head(es, c)
    ensures Splittable(Append(es, e), c)
  {
    if es == [] || c == 0 {
    } else if |es| == 1 {
      assert Append(es, e)[1..] == [] || Append(es, e)[1..] == [e];
    } else {
      assert Append(es, e)[1..] == Append(es[1..], e);
      if es[0].length <= c {
        HeadAppend(es[1..], e, c - es[0].length);
      }
    }
  }

  lemma {:induction false} HeadClaim(es: seq<Extent>, xs: seq<Extent>, c: nat)
    requires Canonical(es) && Positive(xs) && c <= Total(es) && Splittable(es, c)
    ensures Head(Claim(es, xs), c) == Head(es, c)
    ensures Splittable(Claim(es, xs), c)
    decreases xs
  {
    if xs != [] {
      HeadAppend(es, xs[0], c);
      AppendInvariant(es, xs[0]);
      HeadClaim(Append(es, xs[0]), xs[1..], c);
    }
  }

  lemma {:induction false} HeadAll(es: seq<Extent>)
    requires Positive(es)
    ensures Head(es, Total(es)) == es
    ensures Tail(es, Total(es)) == []
    ensures Splittable(es, Total(es))
  {
    if es != [] {
      HeadAll(es[1..]);
    }
  }

  lemma {:induction false} ClaimCanonical(p: seq<Extent>, xs: seq<Extent>)
    requires Canonical(p + xs)
    ensures Claim(p, xs) == p + xs
    decreases xs
  {
    if xs != [] {
      assert p != [] ==> (p + xs)[|p| - 1] == p[|p| - 1];
      assert (p + xs)[|p|] == xs[0];
      assert (p + [xs[0]]) + xs[1..] == p + xs;
      ClaimCanonical(p + [xs[0]], xs[1..]);
    }
  }

  lemma CanonicalRest(es: seq<Extent>)
    requires Canonical(es) && es != []
    ensures Canonical(es[1..])
  {
    forall i, j | 0 <= i && j == i + 1 && j < |es[1..]| ensures !Mergeable(es[1..][i], es[1..][j]) {
      assert es[1..][i] == es[i + 1] && es[1..][j] == es[j + 1];
    }
  }

  lemma DeltaFromStart(es: seq<Extent>)
    requires Canonical(es)
    ensures Claim(Head(es, 0), Tail(es, 0)) == es
  {
    assert [] + es == es;
    ClaimCanonical([], es);
  }

  /** The delta starts inside the first extent: claiming it re-joins the two halves. */
  lemma DeltaInside(es: seq<Extent>, c: nat)
    requires Canonical(es) && es != [] && 0 < c < es[0].length < MERGE_LIMIT
    ensures Claim(Head(es, c), Tail(es, c)) == es
  {
    var h, t := Head(es, c), Tail(es, c);
    assert Append(h, t[0]) == [es[0]];
    assert t[1..] == es[1..];
    assert [es[0]] + es[1..] == es;
    ClaimCanonical([es[0]], es[1..]);
  }

  /** The delta starts at the end of the first extent. */
  lemma DeltaAfterFirst(es: seq<Extent>)
    requires Canonical(es) && es != []
    ensures Claim(Head(es, es[0].length), Tail(es, es[0].length)) == es
  {
    assert Head(es, es[0].length) == [es[0]] + Head(es[1..], 0) == [es[0]];
    assert Tail(es[1..], 0) == es[1..] by {
      if es[1..] != [] {
        assert es[1..] == [es[1..][0]] + es[1..][1..];
      }
    }
    assert [es[0]] + es[1..] == es;
    ClaimCanonical([es[0]], es[1..]);
  }

  lemma {:induction false} ClaimFrame(p: seq<Extent>, es: seq<Extent>, xs: seq<Extent>)
    requires es != []
    ensures Claim(p + es, xs) == p + Claim(es, xs)
    decreases xs
  {
    if xs != [] {
      assert Append(p + es, xs[0]) == p + Append(es, xs[0]);
      ClaimFrame(p, Append(es, xs[0]), xs[1..]);
    }
  }

  lemma DeltaStep(es: seq<Extent>, d: nat)
    requires es != [] && 0 < d <= Total(es[1..])
    requires Claim(Head(es[1..], d), Tail(es[1..], d)) == es[1..]
    ensures Claim(Head(es, es[0].length + d), Tail(es, es[0].length + d)) == es
  {
    assert es[1..] != [];
    ClaimFrame([es[0]], Head(es[1..], d), Tail(es[1..], d));
    assert [es[0]] + es[1..] == es;
  }

  /**
   The delta law: a reader that holds the list below `c` and claims the delta
   taken at `c` ends with exactly the writer's list, extent by extent, even when
   an append has grown the extent that `c` ends in.
   */
  lemma {:induction false} DeltaRebuilds(es: seq<Extent>, c: nat)
    requires Canonical(es) && c <= Total(es) && Splittable(es, c)
    ensures Claim(Head(es, c), Tail(es, c)) == es
  {
    if es == [] {
    } else if c == 0 {
      DeltaFromStart(es);
    } else if c < es[0].length {
      DeltaInside(es, c);
    } else if c == es[0].length {
      DeltaAfterFirst(es);
    } else {
      var d := c - es[0].length;
      CanonicalRest(es);
      DeltaRebuilds(es[1..], d);
      DeltaStep(es, d);
    }
  }

  /** Without the canonical form the law fails: here the reader merges what the writer kept apart. */
  lemma DeltaNeedsCanonical()
    ensures var es := [Extent(0, 0, 4), Extent(0, 4, 4)];
            Splittable(es, 4) && Claim(Head(es, 4), Tail(es, 4)) != es
  {
    var a, b := Extent(0, 0, 4), Extent(0, 4, 4);
    assert [a, b][1..] == [b];
    assert Tail([a, b], 4) == Tail([b], 0) == [b];
    assert Head([a, b], 4) == [a] + Head([b], 0) == [a];
    assert Append([a], b) == [Extent(0, 0, 8)];
    assert [b][1..] == [];
    assert Claim([a], [b]) == Claim(Append([a], b), []);
  }

  lemma {:induction false} PrefixTotals(es: seq<Extent>, i: nat, j: nat)
    requires i <= j <= |es|
    ensures Total(es[..i]) + Total(es[i..j]) == Total(es[..j])
    ensures Total(es[..i]) <= Total(es[..j]) <= Total(es)
    ensures Positive(es) && i < j ==> Total(es[..i]) < Total(es[..j])
  {
    assert es[..j] == es[..i] + es[i..j];
    TotalConcat(es[..i], es[i..j]);
    assert es == es[..j] + es[j..];
    TotalConcat(es[..j], es[j..]);
    if i < j {
      assert es[i..j] == [es[i]] + es[i + 1..j];
    }
  }

  /** The linear scan reaches extent `i` after exactly the lengths before it. */
  lemma PhysAt(es: seq<Extent>, i: nat, x: nat)
    requires i < |es| && x < es[i].length
    ensures Phys(es, Total(es[..i]) + x) == Some((es[i].bdev, es[i].offset + x))
  {
    assert es == es[..i] + es[i..];
    PhysConcat(es[..i], es[i..], Total(es[..i]) + x);
  }

  /** The file node object, updated in place. */
  class Fnode {
    var ino: nat
    var size: nat
    var mtime: nat
    var extents: seq<Extent>
    var index: seq<nat>
    var alloc: nat
    var committed: nat

    /** `extents_index` holds the running sums and `alloc` (the source's `allocated`) the total. */
    ghost predicate Valid()
      reads this
    {
      && |index| == |extents|
      && (forall i :: 0 <= i < |index| ==> index[i] == Total(extents[..i]))
      && alloc == Total(extents)
    }

    constructor (ino: nat, size: nat, mtime: nat)
      ensures Valid()
      ensures this.ino == ino && this.size == size && this.mtime == mtime
      ensures extents == [] && committed == 0
    {
      this.ino, this.size, this.mtime := ino, size, mtime;
      extents, index, alloc, committed := [], [], 0, 0;
    }

    method AppendExtent(e: Extent)
      requires Valid()
      modifies this`extents, this`index, this`alloc
      ensures Valid()
      ensures extents == Append(old(extents), e)
    {
      AppendInvariant(extents, e);
      var n := |extents|;
      if n != 0 && Mergeable(extents[n - 1], e) {
        var grown := extents[n - 1].(length := extents[n - 1].length + e.length);
        assert forall i :: 0 <= i < n ==> extents[n - 1 := grown][..i] == extents[..i];
        extents := extents[n - 1 := grown];
      } else {
        assert forall i :: 0 <= i < n ==> (extents + [e])[..i] == extents[..i];
        assert (extents + [e])[..n] == extents;
        index := index + [alloc];
        extents := extents + [e];
      }
      alloc := alloc + e.length;
    }

    method ClaimExtents(xs: seq<Extent>)
      requires Valid()
      modifies this`extents, this`index, this`alloc
      ensures Valid()
      ensures extents == Claim(old(extents), xs)
    {
      var i := 0;
      while i < |xs|
        invariant 0 <= i <= |xs|
        invariant Valid()
        invariant Claim(extents, xs[i..]) == Claim(old(extents), xs)
      {
        assert xs[i..][0] == xs[i] && xs[i..][1..] == xs[i + 1..];
        AppendExtent(xs[i]);
        i := i + 1;
      }
      assert xs[i..] == [];
    }

    /** Rebuilds the derived fields from the extents alone, as decoding does. */
    method RecalcAllocated()
      modifies this`index, this`alloc, this`committed
      ensures Valid()
      ensures committed == Total(extents)
    {
      alloc, index := 0, [];
      var i := 0;
      while i < |extents|
        invariant 0 <= i <= |extents|
        invariant |index| == i && alloc == Total(extents[..i])
        invariant forall k :: 0 <= k < i ==> index[k] == Total(extents[..k])
        invariant extents == old(extents)
      {
        assert extents[..i + 1] == extents[..i] + [extents[i]];
        TotalConcat(extents[..i], [extents[i]]);
        index := index + [alloc];
        alloc := alloc + extents[i].length;
        i := i + 1;
      }
      assert extents[..i] == extents;
      committed := alloc;
    }

    method PopFrontExtent()
      requires Valid() && extents != []
      modifies this`extents, this`index, this`alloc
      ensures Valid()
      ensures extents == old(extents)[1..]
    {
      var es := extents;
      var len := es[0].length;
      assert forall k :: 0 < k <= |es| ==> es[..k][1..] == es[1..][..k - 1] && es[..k][0] == es[0];
      alloc := alloc - len;
      index := index[1..];
      var i := 0;
      while i < |index|
        invariant 0 <= i <= |index| == |es| - 1
        invariant forall k :: 0 <= k < i ==> index[k] == Total(es[1..][..k])
        invariant forall k :: i <= k < |index| ==> index[k] == Total(es[..k + 1])
        invariant extents == es && alloc == Total(es[1..])
      {
        assert es[..i + 1][1..] == es[1..][..i];
        index := index[i := index[i] - len];
        i := i + 1;
      }
      extents := es[1..];
    }

    method ClearExtents()
      modifies this`extents, this`index, this`alloc, this`committed
      ensures Valid()
      ensures extents == [] && committed == 0
    {
      extents, index, alloc, committed := [], [], 0, 0;
    }

    /**
     Binary search over the running sums.  It agrees with the linear scan `Phys`
     for every offset, and finds nothing exactly when the offset is not allocated.
     */
    method Seek(off: nat) returns (r: Option<(nat, nat)>)
      requires Valid() && Positive(extents)
      ensures r == None <==> Total(extents) <= off
      ensures r.Some? ==> r.value.0 < |extents| && r.value.1 < extents[r.value.0].length
      ensures r.Some? ==> off == Total(extents[..r.value.0]) + r.value.1
      ensures r.Some? ==> Phys(extents, off) ==
                          Some((extents[r.value.0].bdev, extents[r.value.0].offset + r.value.1))
    {
      if extents == [] || alloc <= off {
        return None;
      }
      var lo, hi := 0, |index|;
      while lo < hi
        invariant 0 <= lo <= hi <= |index|
        invariant forall k :: 0 <= k < lo ==> index[k] <= off
        invariant forall k :: hi <= k < |index| ==> off < index[k]
      {
        var mid := (lo + hi) / 2;
        forall k | 0 <= k < |index| ensures k <= mid ==> index[k] <= index[mid]
                                    ensures mid <= k ==> index[mid] <= index[k] {
          PrefixTotals(extents, if k <= mid then k else mid, if k <= mid then mid else k);
        }
        if index[mid] <= off {
          lo := mid + 1;
        } else {
          hi := mid;
        }
      }
      if lo == 0 {
        assert false;
      }
      var idx := lo - 1;
      assert extents[..lo] == extents[..idx] + [extents[idx]];
      TotalConcat(extents[..idx], [extents[idx]]);
      assert lo == |extents| ==> extents[..lo] == extents;
      PhysAt(extents, idx, off - index[idx]);
      return Some((idx, off - index[idx]));
    }

    /** The extents of `make_delta`: what lies beyond the committed offset. */
    method MakeDelta() returns (delta: seq<Extent>)
      requires Positive(extents)
      ensures delta == Tail(extents, committed)
    {
      delta := [];
      var pos := 0;
      var i := 0;
      while i < |extents|
        invariant 0 <= i <= |extents|
        invariant pos <= committed ==> delta == [] && Tail(extents, committed) == Tail(extents[i..], committed - pos)
        invariant committed <= pos ==> Tail(extents, committed) == delta + extents[i..]
      {
        var e := extents[i];
        assert extents[i..][0] == e && extents[i..][1..] == extents[i + 1..];
        if pos + e.length <= committed {
          assert Tail(extents[i + 1..], 0) == extents[i + 1..] by {
            if i + 1 < |extents| {
              assert extents[i + 1..] == [extents[i + 1]] + extents[i + 1..][1..];
            }
          }
        } else {
          var skip := if pos < committed then committed - pos else 0;
          if skip == 0 {
            delta := delta + [e];
          } else {
            delta := delta + [Extent(e.bdev, e.offset + skip, e.length - skip)];
          }
        }
        pos := pos + e.length;
        i := i + 1;
      }
      assert extents[i..] == [];
    }
  }
}
