/**
 The two indexes of the AVL allocator (`blk/avl_allocator.h`): `before_t` orders
 the ranges by offset, `shorter_t` by length and then offset.  The size index is
 kept as the sequence of ranges in its order.
 */
module AvlIndex {
  import opened Ranges

  predicate Shorter(a: Seg, b: Seg) {
    a.Length() < b.Length() || (a.Length() == b.Length() && a.start < b.start)
  }

  ghost predicate SizeSorted(q: seq<Seg>) {
    forall i, j :: 0 <= i < j < |q| ==> Shorter(q[i], q[j])
  }

  /** The size index `q` and the counter `n` describe exactly the ranges `rs`. */
  ghost predicate Indexed(rs: seq<Seg>, q: seq<Seg>, n: int) {
    && SizeSorted(q) && (forall s :: s in q <==> s in rs) && n == Sum(rs)
  }

  function Insert(q: seq<Seg>, s: Seg): seq<Seg> {
    if q == [] || Shorter(s, q[0]) then [s] + q else [q[0]] + Insert(q[1..], s)
  }

  function Erase(q: seq<Seg>, s: Seg): seq<Seg> {
    if q == [] then [] else if q[0] == s then q[1..] else [q[0]] + Erase(q[1..], s)
  }

  lemma {:induction false} InsertMembers(q: seq<Seg>, s: Seg)
    ensures forall t :: t in Insert(q, s) <==> t == s || t in q
  {
    if !(q == [] || Shorter(s, q[0])) {
      InsertMembers(q[1..], s);
      assert q == [q[0]] + q[1..];
    }
  }

  lemma {:induction false} InsertSorted(q: seq<Seg>, s: Seg)
    requires SizeSorted(q) && forall t :: t in q ==> t.start != s.start
    ensures SizeSorted(Insert(q, s))
  {
    if q == [] {
    } else if Shorter(s, q[0]) {
      var r := [s] + q;
      forall i, j | 0 <= i < j < |r| ensures Shorter(r[i], r[j]) {
        assert r[j] == q[j - 1];
        assert j == 1 || Shorter(q[0], q[j - 1]);
      }
    } else {
      assert q[0] in q;
      InsertSorted(q[1..], s);
      InsertMembers(q[1..], s);
      var t := Insert(q[1..], s);
      var r := [q[0]] + t;
      forall i, j | 0 <= i < j < |r| ensures Shorter(r[i], r[j]) {
        assert r[j] == t[j - 1] && t[j - 1] in t;
        if i != 0 {
          assert r[i] == t[i - 1];
        } else if t[j - 1] != s {
          var k :| 0 <= k < |q[1..]| && q[1..][k] == t[j - 1];
          assert q[k + 1] == t[j - 1];
        }
      }
    }
  }

  lemma {:induction false} EraseMembers(q: seq<Seg>, s: Seg)
    requires SizeSorted(q)
    ensures forall t :: t in Erase(q, s) <==> t in q && t != s
  {
    if q != [] {
      assert q == [q[0]] + q[1..];
      if q[0] == s {
        forall k | 0 <= k < |q[1..]| ensures q[1..][k] != s {
          assert Shorter(q[0], q[k + 1]);
        }
      } else {
        EraseMembers(q[1..], s);
      }
    }
  }

  lemma {:induction false} EraseSorted(q: seq<Seg>, s: Seg)
    requires SizeSorted(q)
    ensures SizeSorted(Erase(q, s))
  {
    if q != [] && q[0] != s {
      EraseSorted(q[1..], s);
      EraseMembers(q[1..], s);
      var t := Erase(q[1..], s);
      forall j | 0 <= j < |t| ensures Shorter(q[0], t[j]) {
        assert t[j] in q[1..];
        var k :| 0 <= k < |q[1..]| && q[1..][k] == t[j];
        assert q[k + 1] == t[j];
      }
    }
  }

  /** Taking a range out of both: the index of the remaining ranges. */
  lemma IndexRemove(a: seq<Seg>, s: Seg, b: seq<Seg>, q: seq<Seg>, n: int)
    requires Canonical(a + [s] + b) && Indexed(a + [s] + b, q, n)
    ensures s in q && Indexed(a + b, Erase(q, s), n - s.Length())
  {
    var rs := a + [s] + b;
    EraseMembers(q, s);
    EraseSorted(q, s);
    SumSplice(a, s, b);
    SumConcat(a, b);
    assert rs[|a|] == s;
    forall i | 0 <= i < |a + b| ensures (a + b)[i] != s {
      var k := if i < |a| then i else i + 1;
      assert rs[k] == (a + b)[i] && k != |a|;
    }
  }

  /** Adding a range that lies apart from the others to both. */
  lemma IndexAdd(a: seq<Seg>, s: Seg, b: seq<Seg>, q: seq<Seg>, n: int)
    requires Canonical(a + [s] + b) && Indexed(a + b, q, n)
    ensures Indexed(a + [s] + b, Insert(q, s), n + s.Length())
  {
    var rs := a + [s] + b;
    forall t | t in q ensures t.start != s.start {
      var i :| 0 <= i < |a + b| && (a + b)[i] == t;
      var k := if i < |a| then i else i + 1;
      assert rs[k] == t && rs[|a|] == s && k != |a|;
    }
    InsertSorted(q, s);
    InsertMembers(q, s);
    SumSplice(a, s, b);
    SumConcat(a, b);
  }

  /** The order of the size index is total on distinct ranges, so the index of a set of ranges is unique. */
  lemma {:induction false} SizeIndexUnique(p: seq<Seg>, q: seq<Seg>)
    requires SizeSorted(p) && SizeSorted(q) && forall s :: s in p <==> s in q
    ensures p == q
    decreases |p|
  {
    if p == [] {
      assert forall i :: 0 <= i < |q| ==> q[i] in q;
    } else {
      assert p[0] in p && p[0] in q && q != [] && q[0] in q;
      FirstIsShortest(p);
      FirstIsShortest(q);
      assert p[0] == q[0];
      SizeIndexUnique(p[1..], q[1..]);
      assert p == [p[0]] + p[1..] && q == [q[0]] + q[1..];
    }
  }

  lemma FirstIsShortest(q: seq<Seg>)
    requires SizeSorted(q) && q != []
    ensures SizeSorted(q[1..]) && q[0] !in q[1..]
    ensures forall s :: s in q && s != q[0] ==> Shorter(q[0], s)
    ensures forall s :: s in q[1..] <==> s in q && s != q[0]
  {
    forall s | s in q && s != q[0] ensures Shorter(q[0], s) && s in q[1..] {
      var k :| 0 <= k < |q| && q[k] == s;
      assert q[1..][k - 1] == s;
    }
    forall k | 0 <= k < |q[1..]| ensures q[1..][k] != q[0] {
      assert Shorter(q[0], q[k + 1]);
    }
  }
}
