/** Store keys: unsigned 64-bit offsets in big-endian order (`bluestore/bitmap_freelist_manager.cc`). */
module KeyCodec {
  import Bytes

  /** The `w` lowest bytes of `v`, most significant first. */
  function Encode(v: nat, w: nat): (k: seq<nat>)
    ensures |k| == w && forall i :: 0 <= i < w ==> k[i] < 256
  {
    if w == 0 then [] else Encode(v / 256, w - 1) + [v % 256]
  }

  function Decode(k: seq<nat>): nat {
    if k == [] then 0 else 256 * Decode(k[..|k| - 1]) + k[|k| - 1]
  }

  /** Byte-wise comparison, as the store orders its keys. */
  predicate Less(a: seq<nat>, b: seq<nat>) {
    b != [] && (a == [] || a[0] < b[0] || (a[0] == b[0] && Less(a[1..], b[1..])))
  }

  lemma {:induction false} RoundTrip(v: nat, w: nat)
    requires v < Bytes.Limit(w)
    ensures Decode(Encode(v, w)) == v
  {
    if w != 0 {
      var k := Encode(v, w);
      assert k[..|k| - 1] == Encode(v / 256, w - 1);
      RoundTrip(v / 256, w - 1);
    }
  }

  lemma {:induction false} LessLast(a: seq<nat>, b: seq<nat>, x: nat, y: nat)
    requires |a| == |b|
    ensures Less(a + [x], b + [y]) <==> Less(a, b) || (a == b && x < y)
  {
    if a == [] {
      assert a + [x] == [x] && b + [y] == [y];
    } else {
      assert (a + [x])[1..] == a[1..] + [x] && (b + [y])[1..] == b[1..] + [y];
      LessLast(a[1..], b[1..], x, y);
      assert a == b <==> a[0] == b[0] && a[1..] == b[1..];
    }
  }

  /** Key order is address order, and different addresses have different keys. */
  lemma {:induction false} OrderPreserving(u: nat, v: nat, w: nat)
    requires u < Bytes.Limit(w) && v < Bytes.Limit(w)
    ensures Less(Encode(u, w), Encode(v, w)) <==> u < v
    ensures Encode(u, w) == Encode(v, w) <==> u == v
  {
    RoundTrip(u, w);
    RoundTrip(v, w);
    if w != 0 {
      OrderPreserving(u / 256, v / 256, w - 1);
      LessLast(Encode(u / 256, w - 1), Encode(v / 256, w - 1), u % 256, v % 256);
    }
  }

  /** Eight bytes hold exactly the unsigned 64-bit values. */
  lemma EightBytes()
    ensures Bytes.Limit(8) == 0x1_0000_0000_0000_0000
  {
    assert Bytes.Limit(4) == 0x1_0000_0000;
  }
}
