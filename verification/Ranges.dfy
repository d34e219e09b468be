/**
 Lists of disjoint ranges and the set of points they cover; the coalesced form
 of a set is unique.
 */
module Ranges {

  datatype Seg = Seg(start: nat, end: nat) {
    function Length(): int {
      end - start
    }
  }

  /** Sorted, disjoint, nonempty ranges with a gap between any two: the fully coalesced form. */
  ghost predicate Canonical(rs: seq<Seg>) {
    && (forall i :: 0 <= i < |rs| ==> rs[i].start < rs[i].end)
    && (forall i, j :: 0 <= i < j < |rs| ==> rs[i].end < rs[j].start)
  }

  /** Point `x` is covered. */
  ghost predicate Has(rs: seq<Seg>, x: nat) {
    exists i :: 0 <= i < |rs| && rs[i].start <= x < rs[i].end
  }

  function Sum(rs: seq<Seg>): int {
    if rs == [] then 0 else rs[0].Length() + Sum(rs[1..])
  }

  lemma HasConcat(a: seq<Seg>, b: seq<Seg>, x: nat)
    ensures Has(a + b, x) <==> Has(a, x) || Has(b, x)
  {
    if Has(a, x) {
      var i :| 0 <= i < |a| && a[i].start <= x < a[i].end;
      assert (a + b)[i] == a[i];
    }
    if Has(b, x) {
      var i :| 0 <= i < |b| && b[i].start <= x < b[i].end;
      assert (a + b)[|a| + i] == b[i];
    }
  }

  lemma HasOne(s: Seg, x: nat)
    ensures Has([s], x) <==> s.start <= x < s.end
  {
    assert [s][0] == s;
  }

  lemma {:induction false} SumConcat(a: seq<Seg>, b: seq<Seg>)
    ensures Sum(a + b) == Sum(a) + Sum(b)
  {
    if a == [] {
      assert a + b == b;
    } else {
      assert (a + b)[1..] == a[1..] + b;
      SumConcat(a[1..], b);
    }
  }

  lemma SumSplice(a: seq<Seg>, s: Seg, b: seq<Seg>)
    ensures Sum(a + [s] + b) == Sum(a) + s.Length() + Sum(b)
  {
    SumConcat(a, [s]);
    SumConcat(a + [s], b);
    assert [s][1..] == [];
  }

  lemma {:induction false} SumPositive(rs: seq<Seg>)
    requires Canonical(rs)
    ensures 0 <= Sum(rs)
    ensures forall k :: 0 <= k < |rs| ==> rs[k].Length() <= Sum(rs)
  {
    if rs != [] {
      SumPositive(rs[1..]);
      assert forall k :: 0 < k < |rs| ==> rs[k] == rs[1..][k - 1];
    }
  }

  lemma FirstPoint(rs: seq<Seg>)
    requires Canonical(rs) && rs != []
    ensures Has(rs, rs[0].start)
    ensures forall x: nat :: Has(rs, x) ==> rs[0].start <= x
    ensures !Has(rs, rs[0].end)
    ensures forall x: nat :: rs[0].start <= x < rs[0].end ==> Has(rs, x)
    ensures forall x: nat :: Has(rs[1..], x) <==> Has(rs, x) && rs[0].end <= x
  {
    assert rs[0].start <= rs[0].start < rs[0].end;
    forall x: nat | Has(rs, x) ensures rs[0].start <= x && (rs[0].end <= x ==> Has(rs[1..], x)) && x != rs[0].end {
      var i :| 0 <= i < |rs| && rs[i].start <= x < rs[i].end;
      if i != 0 {
        assert rs[0].end < rs[i].start;
        assert rs[1..][i - 1] == rs[i];
      }
    }
    forall x: nat | Has(rs[1..], x) ensures Has(rs, x) && rs[0].end <= x {
      var i :| 0 <= i < |rs[1..]| && rs[1..][i].start <= x < rs[1..][i].end;
      assert rs[i + 1] == rs[1..][i];
      assert rs[0].end < rs[i + 1].start;
    }
  }

  /** The coalesced form of a set of points is unique. */
  lemma {:induction false} CanonicalUnique(a: seq<Seg>, b: seq<Seg>)
    requires Canonical(a) && Canonical(b)
    requires forall x: nat :: Has(a, x) <==> Has(b, x)
    ensures a == b
    decreases |a|
  {
    if a == [] || b == [] {
      if a != [] {
        FirstPoint(a);
        assert false;
      }
      if b != [] {
        FirstPoint(b);
        assert false;
      }
    } else {
      SameFirst(a, b);
      CanonicalUnique(a[1..], b[1..]);
      assert a == [a[0]] + a[1..] && b == [b[0]] + b[1..];
    }
  }

  lemma SameFirst(a: seq<Seg>, b: seq<Seg>)
    requires Canonical(a) && Canonical(b) && a != [] && b != []
    requires forall x: nat :: Has(a, x) <==> Has(b, x)
    ensures a[0] == b[0] && Canonical(a[1..]) && Canonical(b[1..])
    ensures forall x: nat :: Has(a[1..], x) <==> Has(b[1..], x)
  {
    FirstPoint(a);
    FirstPoint(b);
    assert Has(b, a[0].start) && Has(a, b[0].start);
    assert a[0].start == b[0].start;
    assert !Has(b, a[0].end) && !Has(a, b[0].end);
    assert a[0].end == b[0].end;
    CanonicalSlice(a, 1, |a|);
    CanonicalSlice(b, 1, |b|);
  }

  lemma CanonicalConcat(a: seq<Seg>, b: seq<Seg>)
    requires Canonical(a) && Canonical(b)
    requires a != [] && b != [] ==> a[|a| - 1].end < b[0].start
    ensures Canonical(a + b)
  {
    var c := a + b;
    forall i, j | 0 <= i < j < |c| ensures c[i].end < c[j].start {
      if i < |a| <= j {
        assert a[i].end <= a[|a| - 1].end;
        assert b[0].start <= b[j - |a|].start;
      }
    }
  }

  lemma CanonicalSlice(rs: seq<Seg>, lo: nat, hi: nat)
    requires Canonical(rs) && lo <= hi <= |rs|
    ensures Canonical(rs[lo..hi])
  {
  }

  /** A list may be spliced with a new range that fits, with gaps, between its halves. */
  lemma CanonicalSplice(a: seq<Seg>, s: Seg, b: seq<Seg>)
    requires Canonical(a) && Canonical(b) && s.start < s.end
    requires a != [] ==> a[|a| - 1].end < s.start
    requires b != [] ==> s.end < b[0].start
    ensures Canonical(a + [s] + b)
  {
    CanonicalConcat(a, [s]);
    CanonicalConcat(a + [s], b);
  }
}
