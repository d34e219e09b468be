/**
 CRC-32C as `common/crc32.cc` computes it with a table, against the bit-serial
 division by the reflected Castagnoli polynomial (section 12.1 of RFC 3720).
 */
module Crc32 {
  import opened Bytes
  import opened IntArith

  const Poly: u32 := 0x82F63B78
  const Ones: u32 := 0xFFFF_FFFF

  function Xor(v: nat, w: nat): nat {
    if v == 0 && w == 0 then 0
    else 2 * Xor(v / 2, w / 2) + if v % 2 == w % 2 then 0 else 1
  }

  function Not(w: u32): u32 {
    Ones - w
  }

  lemma Pow32()
    ensures Pow2(31) == 0x8000_0000 && Pow2(32) == 0x1_0000_0000
  {
    assert Pow2(8) == 0x100;
    assert Pow2(16) == 0x100 * Pow2(8);
    assert Pow2(24) == 0x100 * Pow2(16);
    assert Pow2(31) == 0x80 * Pow2(24);
  }

  // The algebra of exclusive or.

  lemma {:induction false} XorZero(v: nat)
    ensures Xor(v, 0) == v && Xor(0, v) == v
  {
    if v != 0 {
      XorZero(v / 2);
    }
  }

  lemma {:induction false} XorCommutes(v: nat, w: nat)
    ensures Xor(v, w) == Xor(w, v)
  {
    if v != 0 || w != 0 {
      XorCommutes(v / 2, w / 2);
    }
  }

  lemma XorHalf(v: nat, w: nat)
    ensures Xor(v, w) / 2 == Xor(v / 2, w / 2)
    ensures Xor(v, w) % 2 == if v % 2 == w % 2 then 0 else 1
  {
  }

  lemma {:induction false} XorAssociates(u: nat, v: nat, w: nat)
    ensures Xor(Xor(u, v), w) == Xor(u, Xor(v, w))
  {
    if u == 0 || w == 0 {
      XorZero(v);
      XorZero(Xor(u, v));
      XorZero(Xor(v, w));
      XorZero(w);
      XorZero(u);
    } else {
      XorAssociates(u / 2, v / 2, w / 2);
      XorHalf(u, v);
      XorHalf(v, w);
      SameHalves(Xor(Xor(u, v), w), Xor(u, Xor(v, w)));
    }
  }

  lemma SameHalves(v: nat, w: nat)
    requires v / 2 == w / 2 && v % 2 == w % 2
    ensures v == w
  {
  }

  lemma {:induction false} XorSelf(v: nat)
    ensures Xor(v, v) == 0
  {
    if v != 0 {
      XorSelf(v / 2);
    }
  }

  lemma XorCancels(u: nat, v: nat, w: nat)
    requires Xor(u, w) == Xor(v, w)
    ensures u == v
  {
    XorAssociates(u, w, w);
    XorAssociates(v, w, w);
    XorSelf(w);
    XorZero(u);
    XorZero(v);
  }

  lemma {:induction false} XorBound(n: nat, v: nat, w: nat)
    requires v < Pow2(n) && w < Pow2(n)
    ensures Xor(v, w) < Pow2(n)
  {
    if n != 0 {
      XorBound(n - 1, v / 2, w / 2);
    }
  }

  /** The top bit survives when only one operand has it. */
  lemma {:induction false} XorTop(n: nat, v: nat, w: nat)
    requires v < Pow2(n) <= w
    ensures Pow2(n) <= Xor(v, w)
  {
    if n == 0 {
      XorZero(w);
    } else {
      XorTop(n - 1, v / 2, w / 2);
    }
  }

  function XorWord(v: u32, w: u32): u32 {
    Pow32();
    XorBound(32, v, w);
    Xor(v, w)
  }

  // The division, one bit at a time.

  /** Shift the register by one place; subtract the divisor if a one falls out. */
  function Shift(r: u32): u32 {
    if r % 2 == 1 then XorWord(r / 2, Poly) else r / 2
  }

  function ShiftTimes(r: u32, n: nat): u32
    decreases n
  {
    if n == 0 then r else ShiftTimes(Shift(r), n - 1)
  }

  /** Feed one message bit. */
  function FeedBit(r: u32, bit: bool): u32 {
    Shift(XorWord(r, if bit then 1 else 0))
  }

  function FeedBits(r: u32, bits: seq<bool>): u32
    decreases |bits|
  {
    if bits == [] then r else FeedBits(FeedBit(r, bits[0]), bits[1..])
  }

  /** The `n` low bits of `v`, lowest first. */
  function BitsOf(v: nat, n: nat): seq<bool> {
    if n == 0 then [] else [v % 2 == 1] + BitsOf(v / 2, n - 1)
  }

  function MessageBits(data: seq<byte>): seq<bool> {
    if data == [] then [] else BitsOf(data[0], 8) + MessageBits(data[1..])
  }

  /** The checksum by its definition: complemented register, one message bit after the other. */
  function Reference(data: seq<byte>, seed: u32): u32 {
    Not(FeedBits(Not(seed), MessageBits(data)))
  }

  lemma {:induction false} FeedConcat(r: u32, a: seq<bool>, b: seq<bool>)
    ensures FeedBits(r, a + b) == FeedBits(FeedBits(r, a), b)
    decreases |a|
  {
    if a == [] {
      assert a + b == b;
    } else {
      assert (a + b)[0] == a[0] && (a + b)[1..] == a[1..] + b;
      FeedConcat(FeedBit(r, a[0]), a[1..], b);
    }
  }

  lemma {:induction false} MessageConcat(a: seq<byte>, b: seq<byte>)
    ensures MessageBits(a + b) == MessageBits(a) + MessageBits(b)
  {
    if a == [] {
      assert a + b == b;
    } else {
      assert (a + b)[0] == a[0] && (a + b)[1..] == a[1..] + b;
      MessageConcat(a[1..], b);
    }
  }

  /** Shifting is linear. */
  lemma ShiftLinear(v: u32, w: u32)
    ensures Shift(XorWord(v, w)) == XorWord(Shift(v), Shift(w))
  {
    var a, b := v / 2, w / 2;
    XorHalf(v, w);
    if v % 2 == 1 && w % 2 == 1 {
      XorAssociates(a, Poly, Xor(b, Poly));
      XorCommutes(b, Poly);
      XorAssociates(Poly, Poly, b);
      XorSelf(Poly);
      XorZero(b);
    } else if v % 2 == 1 {
      XorAssociates(a, b, Poly);
      XorCommutes(b, Poly);
      XorAssociates(a, Poly, b);
    } else if w % 2 == 1 {
      XorAssociates(a, b, Poly);
    }
  }

  lemma {:induction false} ShiftTimesLinear(v: u32, w: u32, n: nat)
    ensures ShiftTimes(XorWord(v, w), n) == XorWord(ShiftTimes(v, n), ShiftTimes(w, n))
    decreases n
  {
    if n != 0 {
      ShiftLinear(v, w);
      ShiftTimesLinear(Shift(v), Shift(w), n - 1);
    }
  }

  lemma {:induction false} EvenParts(v: nat)
    ensures Xor(v % 2, v / 2 * 2) == v
  {
    XorHalf(v % 2, v / 2 * 2);
    XorZero(v / 2);
    SameHalves(Xor(v % 2, v / 2 * 2), v);
  }

  /** A byte put into the register at once, or bit by bit. */
  lemma {:induction false} ByteAsBits(r: u32, v: u32, n: nat)
    requires v < Pow2(n)
    ensures ShiftTimes(XorWord(r, v), n) == FeedBits(r, BitsOf(v, n))
    decreases n
  {
    if n == 0 {
      XorZero(r);
    } else {
      var bit := v % 2;
      EvenParts(v);
      XorAssociates(r, bit, v / 2 * 2);
      ShiftLinear(XorWord(r, bit), v / 2 * 2);
      var r' := FeedBit(r, bit == 1);
      assert Shift(v / 2 * 2) == v / 2;
      assert Shift(XorWord(r, v)) == XorWord(r', v / 2);
      ByteAsBits(r', v / 2, n - 1);
      assert BitsOf(v, n)[1..] == BitsOf(v / 2, n - 1);
    }
  }

  // The table.

  ghost predicate IsTable(t: seq<u32>) {
    |t| == 256 && forall i :: 0 <= i < 256 ==> t[i] == ShiftTimes(i, 8)
  }

  /** The constructor of `CRC32Table`. */
  method MakeTable() returns (table: array<u32>)
    ensures fresh(table) && table.Length == 256 && IsTable(table[..])
  {
    table := new u32[256];
    var i := 0;
    while i < 256
      invariant 0 <= i <= 256
      invariant forall k :: 0 <= k < i ==> table[k] == ShiftTimes(k, 8)
    {
      var crc := TableEntry(i, 8);
      table[i] := crc;
      i := i + 1;
    }
  }

  /** Its inner loop. */
  method TableEntry(i: u32, n: nat) returns (crc: u32)
    ensures crc == ShiftTimes(i, n)
  {
    crc := i;
    var j := 0;
    while j < n
      invariant 0 <= j <= n
      invariant ShiftTimes(crc, n - j) == ShiftTimes(i, n)
    {
      crc := if crc % 2 == 1 then XorWord(crc / 2, Poly) else crc / 2;
      j := j + 1;
    }
  }

  /** `v << n`, without a bound. */
  ghost function Up(v: nat, n: nat): nat {
    if n == 0 then v else 2 * Up(v, n - 1)
  }

  lemma {:induction false} ShiftUp(v: nat, n: nat)
    requires Up(v, n) < 0x1_0000_0000
    ensures v < 0x1_0000_0000 && ShiftTimes(Up(v, n), n) == v
  {
    if n != 0 {
      ShiftUp(v, n - 1);
    }
  }

  lemma XorDouble(lo: nat, up: nat)
    ensures Xor(lo, 2 * up) == 2 * Xor(lo / 2, up) + lo % 2
  {
    XorHalf(lo, 2 * up);
    assert 2 * up / 2 == up && 2 * up % 2 == 0;
  }

  /** Parts of a word that do not overlap are put together by exclusive or. */
  lemma {:induction false} LowHigh(lo: nat, hi: nat, n: nat)
    requires lo < Pow2(n)
    ensures Xor(lo, Up(hi, n)) == lo + Up(hi, n)
    decreases n
  {
    if n == 0 {
      XorZero(hi);
    } else {
      var up := Up(hi, n - 1);
      LowHigh(lo / 2, hi, n - 1);
      XorDouble(lo, up);
    }
  }

  lemma Up8(v: nat)
    ensures Up(v, 8) == 256 * v && Pow2(8) == 256
  {
    assert Up(v, 1) == 2 * v && Up(v, 2) == 4 * v && Up(v, 3) == 8 * v && Up(v, 4) == 16 * v;
    assert Up(v, 5) == 32 * v && Up(v, 6) == 64 * v && Up(v, 7) == 128 * v;
  }

  /** Several shifts: those of the low part, and the rest moved down. */
  lemma ShiftParts(lo: u32, hi: u32, n: nat)
    requires lo < Pow2(n) && lo + Up(hi, n) < 0x1_0000_0000
    ensures ShiftTimes(lo + Up(hi, n), n) == XorWord(hi, ShiftTimes(lo, n))
  {
    LowHigh(lo, hi, n);
    ShiftTimesLinear(lo, Up(hi, n), n);
    ShiftUp(hi, n);
    XorCommutes(ShiftTimes(lo, n), hi);
  }

  /** Eight shifts: look up the low byte, and move the rest down. */
  lemma ByTable(r: u32, n: nat)
    requires n == 8
    ensures ShiftTimes(r, n) == XorWord(r / 256, ShiftTimes(r % 256, n))
  {
    Up8(r / 256);
    ShiftParts(r % 256, r / 256, n);
  }

  /** `v >> n`. */
  ghost function Down(v: nat, n: nat): nat
    decreases n
  {
    if n == 0 then v else Down(v / 2, n - 1)
  }

  lemma {:induction false} DownXor(v: nat, w: nat, n: nat)
    ensures Down(Xor(v, w), n) == Xor(Down(v, n), Down(w, n))
    decreases n
  {
    if n != 0 {
      XorHalf(v, w);
      DownXor(v / 2, w / 2, n - 1);
    }
  }

  lemma Down8(v: nat)
    ensures Down(v, 8) == v / 256
  {
    assert Down(v, 2) == v / 4;
    assert Down(v, 4) == Down(v / 4, 2) == v / 16;
    assert Down(v, 8) == Down(v / 16, 4) == v / 16 / 16;
  }

  /** One byte of the table method against one byte of the definition. */
  lemma TableStep(r: u32, d: byte, n: nat)
    requires n == 8
    ensures XorWord(r / 256, ShiftTimes(XorWord(r, d) % 256, n)) == FeedBits(r, BitsOf(d, n))
  {
    ByTable(XorWord(r, d), n);
    HighPart(r, d, n);
    Up8(0);
    ByteAsBits(r, d, n);
  }

  lemma HighPart(r: u32, d: byte, n: nat)
    requires n == 8
    ensures Xor(r, d) / 256 == r / 256
  {
    DownXor(r, d, n);
    Down8(Xor(r, d));
    Down8(r);
    Down8(d);
    XorZero(r / 256);
  }

  /** `crc32c_software_fallback`. */
  method SoftwareFallback(table: array<u32>, data: seq<byte>, previous: u32) returns (r: u32)
    requires IsTable(table[..])
    ensures r == Reference(data, previous)
  {
    var crc := Not(previous);
    var i := 0;
    assert data[..0] == [];
    while i < |data|
      invariant 0 <= i <= |data|
      invariant crc == FeedBits(Not(previous), MessageBits(data[..i]))
    {
      var index := XorWord(crc, data[i]) % 256;
      OneMore(data, i, Not(previous));
      TableStep(crc, data[i], 8);
      assert table[..][index] == table[index];
      crc := XorWord(crc / 256, table[index]);
      i := i + 1;
    }
    assert data[..i] == data;
    r := Not(crc);
  }

  lemma OneMore(data: seq<byte>, i: nat, r: u32)
    requires i < |data|
    ensures FeedBits(r, MessageBits(data[..i + 1])) == FeedBits(FeedBits(r, MessageBits(data[..i])), BitsOf(data[i], 8))
  {
    assert data[..i + 1] == data[..i] + [data[i]];
    MessageConcat(data[..i], [data[i]]);
    assert MessageBits([data[i]]) == BitsOf(data[i], 8) + MessageBits([]) == BitsOf(data[i], 8);
    FeedConcat(r, MessageBits(data[..i]), BitsOf(data[i], 8));
  }

  datatype Buffer = Null | Data(bytes: seq<byte>)

  /** `calc_crc32`: a null buffer stands for `length` zero bytes. */
  method CalcCrc32(table: array<u32>, data: Buffer, length: nat, previous: u32) returns (r: u32)
    requires IsTable(table[..]) && (data.Data? ==> length == |data.bytes|)
    ensures r == Reference(if data.Data? then data.bytes else Zeros(length), previous)
  {
    if length == 0 {
      assert data.Data? ==> data.bytes == [];
      assert Zeros(0) == [];
      return previous;
    }
    if data.Null? {
      var crc := Not(previous);
      var i := 0;
      ghost var z := Zeros(length);
      assert z[..0] == [];
      while i < length
        invariant 0 <= i <= length
        invariant crc == FeedBits(Not(previous), MessageBits(z[..i]))
      {
        var index := crc % 256;
        OneMore(z, i, Not(previous));
        TableStep(crc, 0, 8);
        XorZero(crc);
        assert table[..][index] == table[index];
        crc := XorWord(crc / 256, table[index]);
        i := i + 1;
      }
      assert z[..i] == z;
      return Not(crc);
    }
    r := SoftwareFallback(table, data.bytes, previous);
  }

  /** The checksum of a concatenation is the checksum of the second part seeded with that of the first. */
  lemma Chaining(a: seq<byte>, b: seq<byte>, seed: u32)
    ensures Reference(a + b, seed) == Reference(b, Reference(a, seed))
  {
    MessageConcat(a, b);
    FeedConcat(Not(seed), MessageBits(a), MessageBits(b));
  }

  // What the checksum detects.

  lemma ShiftInjective(v: u32, w: u32)
    requires Shift(v) == Shift(w)
    ensures v == w
  {
    Pow32();
    if v % 2 == w % 2 {
      if v % 2 == 1 {
        XorCancels(v / 2, w / 2, Poly);
      }
      SameHalves(v, w);
    } else {
      XorTop(31, v / 2, Poly);
      XorTop(31, w / 2, Poly);
    }
  }

  lemma {:induction false} FeedInjective(v: u32, w: u32, bits: seq<bool>)
    requires FeedBits(v, bits) == FeedBits(w, bits)
    ensures v == w
    decreases |bits|
  {
    if bits != [] {
      FeedInjective(FeedBit(v, bits[0]), FeedBit(w, bits[0]), bits[1..]);
      var b: u32 := if bits[0] then 1 else 0;
      ShiftInjective(XorWord(v, b), XorWord(w, b));
      XorCancels(v, w, b);
    }
  }

  lemma {:induction false} ShiftTimesInjective(v: u32, w: u32, n: nat)
    requires ShiftTimes(v, n) == ShiftTimes(w, n)
    ensures v == w
    decreases n
  {
    if n != 0 {
      ShiftTimesInjective(Shift(v), Shift(w), n - 1);
      ShiftInjective(v, w);
    }
  }

  /** Any change confined to one byte changes the checksum. */
  lemma DetectsOneByte(a: seq<byte>, x: byte, y: byte, b: seq<byte>, seed: u32)
    requires x != y
    ensures Reference(a + [x] + b, seed) != Reference(a + [y] + b, seed)
  {
    var r := FeedBits(Not(seed), MessageBits(a));
    FeedParts(a, x, b, Not(seed));
    FeedParts(a, y, b, Not(seed));
    var rx, ry := FeedBits(r, BitsOf(x, 8)), FeedBits(r, BitsOf(y, 8));
    if FeedBits(rx, MessageBits(b)) == FeedBits(ry, MessageBits(b)) {
      FeedInjective(rx, ry, MessageBits(b));
      Up8(0);
      ByteAsBits(r, x, 8);
      ByteAsBits(r, y, 8);
      ShiftTimesInjective(XorWord(r, x), XorWord(r, y), 8);
      XorCommutes(r, x);
      XorCommutes(r, y);
      XorCancels(x, y, r);
      assert false;
    }
  }

  lemma FeedParts(a: seq<byte>, x: byte, b: seq<byte>, r: u32)
    ensures FeedBits(r, MessageBits(a + [x] + b))
         == FeedBits(FeedBits(FeedBits(r, MessageBits(a)), BitsOf(x, 8)), MessageBits(b))
  {
    MessageConcat(a + [x], b);
    MessageConcat(a, [x]);
    assert MessageBits([x]) == BitsOf(x, 8) + MessageBits([]) == BitsOf(x, 8);
    FeedConcat(r, MessageBits(a + [x]), MessageBits(b));
    FeedConcat(r, MessageBits(a), BitsOf(x, 8));
  }
}
