/** Machine integers and little-endian byte strings. */
module Bytes {
  type byte = n: nat | n < 0x100
  type u32 = n: nat | n < 0x1_0000_0000
  type u64 = n: nat | n < 0x1_0000_0000_0000_0000

  /** `256^w`. */
  ghost function Limit(w: nat): nat {
    if w == 0 then 1 else 256 * Limit(w - 1)
  }

  lemma Limits()
    ensures Limit(1) == 0x100 && Limit(4) == 0x1_0000_0000 && Limit(8) == 0x1_0000_0000_0000_0000
  {
    assert Limit(2) == 256 * Limit(1) && Limit(3) == 256 * Limit(2);
    assert Limit(5) == 256 * Limit(4) && Limit(6) == 256 * Limit(5) && Limit(7) == 256 * Limit(6);
  }

  /** The `w` lowest bytes of `v`, least significant first. */
  function ToBytes(v: nat, w: nat): (b: seq<byte>)
    ensures |b| == w
  {
    if w == 0 then [] else [v % 256] + ToBytes(v / 256, w - 1)
  }

  function FromBytes(b: seq<byte>): nat {
    if b == [] then 0 else b[0] + 256 * FromBytes(b[1..])
  }

  lemma {:induction false} RoundTrip(v: nat, w: nat)
    requires v < Limit(w)
    ensures FromBytes(ToBytes(v, w)) == v
  {
    if w != 0 {
      RoundTrip(v / 256, w - 1);
      assert ToBytes(v, w)[1..] == ToBytes(v / 256, w - 1);
    }
  }

  lemma {:induction false} BackTrip(b: seq<byte>)
    ensures ToBytes(FromBytes(b), |b|) == b
  {
    if b != [] {
      BackTrip(b[1..]);
      assert FromBytes(b) % 256 == b[0] && FromBytes(b) / 256 == FromBytes(b[1..]);
    }
  }

  lemma {:induction false} FromBytesLimit(b: seq<byte>)
    ensures FromBytes(b) < Limit(|b|)
  {
    if b != [] {
      FromBytesLimit(b[1..]);
    }
  }

  function Zeros(n: nat): (z: seq<byte>)
    ensures |z| == n && forall i :: 0 <= i < n ==> z[i] == 0
  {
    seq(n, _ => 0)
  }
}
