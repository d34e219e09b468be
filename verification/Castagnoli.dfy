/**
 The divisor of the checksum is the Castagnoli polynomial, and the checksum is
 CRC-32C: its check value, and the residue that every message leaves when its
 checksum follows it (the polynomial is that of section 12.1 of RFC 3720).

 Concrete registers are worked out on machine words and carried over to the
 numbers of `Crc32`.
 */
module Castagnoli {
  import opened Bytes
  import opened IntArith
  import opened Crc32

  // Machine words as numbers.

  function Bit(b: bv32): nat {
    if b & 1 == 1 then 1 else 0
  }

  /** The value of the four low bits. */
  function Digit(b: bv32): (r: nat)
    ensures r < 0x10
  {
    Bit(b) + 2 * Bit(b >> 1) + 4 * Bit(b >> 2) + 8 * Bit(b >> 3)
  }

  /** The value of the sixteen low bits. */
  function Half(b: bv32): (r: nat)
    ensures r < 0x10000
  {
    Digit(b) + 0x10 * Digit(b >> 4) + 0x100 * Digit(b >> 8) + 0x1000 * Digit(b >> 12)
  }

  /** The value of a word. */
  function Val(b: bv32): (r: nat)
    ensures r < 0x1_0000_0000
  {
    Half(b) + 0x10000 * Half(b >> 16)
  }

  /** `f` reads words as numbers, one bit after the other. */
  ghost predicate Reads(f: bv32 -> nat) {
    f(0) == 0 && forall b: bv32 :: f(b) < 0x1_0000_0000 && f(b) / 2 == f(b >> 1) && f(b) % 2 == Bit(b)
  }

  lemma ValReads()
    ensures Reads(Val)
  {
    forall b: bv32 ensures Val(b) < 0x1_0000_0000 && Val(b) / 2 == Val(b >> 1) && Val(b) % 2 == Bit(b) {
      ValHalves(b);
    }
  }

  /** Shifting moves each digit down by half and takes the lowest bit of the next. */
  lemma DigitHalves(b: bv32)
    ensures Digit(b) + 16 * Bit(b >> 4) == 2 * Digit(b >> 1) + Bit(b)
  {
  }

  lemma HalfTwice(b: bv32)
    ensures Half(b) + 0x10000 * Bit(b >> 16) == 2 * Half(b >> 1) + Bit(b)
  {
    assert (b >> 1) >> 4 == (b >> 4) >> 1 && (b >> 1) >> 8 == (b >> 8) >> 1 && (b >> 1) >> 12 == (b >> 12) >> 1;
    assert (b >> 4) >> 4 == b >> 8 && (b >> 8) >> 4 == b >> 12 && (b >> 12) >> 4 == b >> 16;
    DigitHalves(b);
    DigitHalves(b >> 4);
    DigitHalves(b >> 8);
    DigitHalves(b >> 12);
  }

  ghost predicate Twice16(h: bv32 -> nat, b: bv32) {
    h(b) + 0x10000 * Bit(b >> 16) == 2 * h(b >> 1) + Bit(b)
  }

  lemma HalfTwices()
    ensures forall b: bv32 :: Twice16(Half, b)
  {
    forall b: bv32 ensures Twice16(Half, b) {
      HalfTwice(b);
    }
  }

  lemma TwoHalves(h: bv32 -> nat, b: bv32)
    requires Twice16(h, b) && Twice16(h, b >> 16)
    ensures h(b) + 0x10000 * h(b >> 16) == 2 * (h(b >> 1) + 0x10000 * h((b >> 1) >> 16)) + Bit(b)
  {
    assert (b >> 1) >> 16 == (b >> 16) >> 1 && (b >> 16) >> 16 == 0;
  }

  lemma ValTwice(b: bv32)
    ensures Val(b) == 2 * Val(b >> 1) + Bit(b)
  {
    HalfTwices();
    TwoHalves(Half, b);
  }

  lemma ValHalves(b: bv32)
    ensures Val(b) / 2 == Val(b >> 1) && Val(b) % 2 == Bit(b)
  {
    ValTwice(b);
  }

  /** How many bits the word needs. */
  ghost function Len(b: bv32): nat
    decreases b
  {
    if b == 0 then 0 else 1 + Len(b >> 1)
  }

  lemma Shorter(b: bv32)
    ensures if b == 0 then b >> 1 == 0 else Len(b >> 1) < Len(b)
  {
  }

  lemma WordHalves(a: bv32, b: bv32)
    ensures (a ^ b) >> 1 == (a >> 1) ^ (b >> 1) && Bit(a ^ b) == if Bit(a) == Bit(b) then 0 else 1
  {
  }

  /** Exclusive or of words is exclusive or of numbers. */
  lemma {:induction false} XorReads(f: bv32 -> nat, a: bv32, b: bv32)
    requires Reads(f)
    ensures Xor(f(a), f(b)) == f(a ^ b)
    decreases Len(a) + Len(b)
  {
    if a == 0 && b == 0 {
      assert a ^ b == 0;
    } else {
      Shorter(a);
      Shorter(b);
      XorReads(f, a >> 1, b >> 1);
      WordHalves(a, b);
      XorHalf(f(a), f(b));
      SameHalves(Xor(f(a), f(b)), f(a ^ b));
    }
  }

  // The divisor.

  /** The register holds the highest power in its lowest bit. */
  ghost function Power(k: nat): nat
    requires k < 32
  {
    Pow2(31 - k)
  }

  lemma PowerSteps(k: nat)
    requires 4 <= k < 32
    ensures Power(k - 1) == 2 * Power(k) && Power(k - 2) == 4 * Power(k)
    ensures Power(k - 3) == 8 * Power(k) && Power(k - 4) == 16 * Power(k)
  {
  }

  /** Read so, the divisor has exactly these powers below `x^32`. */
  lemma DivisorPowers()
    ensures Poly == Power(28) + Power(27) + Power(26) + Power(25) + Power(23) + Power(22) + Power(20) + Power(19)
                    + Power(18) + Power(14) + Power(13) + Power(11) + Power(10) + Power(9) + Power(8) + Power(6) + Power(0)
  {
    assert Power(31) == 1;
    PowerSteps(31);
    PowerSteps(27);
    PowerSteps(23);
    PowerSteps(19);
    PowerSteps(15);
    PowerSteps(11);
    PowerSteps(7);
    PowerSteps(4);
  }

  const PolyWord: bv32 := 0x82F63B78

  /** `f` reads words, and the divisor, as numbers. */
  ghost predicate ReadsAll(f: bv32 -> nat) {
    Reads(f) && f(PolyWord) == Poly
  }

  function ShiftWord(r: bv32): bv32 {
    if r & 1 == 1 then (r >> 1) ^ PolyWord else r >> 1
  }

  function ShiftByte(r: bv32): bv32 {
    ShiftWord(ShiftWord(ShiftWord(ShiftWord(ShiftWord(ShiftWord(ShiftWord(ShiftWord(r))))))))
  }

  lemma ShiftReads(f: bv32 -> nat, r: bv32, n: nat)
    requires ReadsAll(f) && 0 < n
    ensures ShiftTimes(f(r), n) == ShiftTimes(f(ShiftWord(r)), n - 1)
  {
    XorReads(f, r >> 1, PolyWord);
  }

  lemma ShiftByteReads(f: bv32 -> nat, r: bv32, n: nat)
    requires ReadsAll(f) && 8 <= n
    ensures ShiftTimes(f(r), n) == ShiftTimes(f(ShiftByte(r)), n - 8)
  {
    ShiftReads(f, r, n);
    var r1 := ShiftWord(r);
    ShiftReads(f, r1, n - 1);
    var r2 := ShiftWord(r1);
    ShiftReads(f, r2, n - 2);
    var r3 := ShiftWord(r2);
    ShiftReads(f, r3, n - 3);
    var r4 := ShiftWord(r3);
    ShiftReads(f, r4, n - 4);
    var r5 := ShiftWord(r4);
    ShiftReads(f, r5, n - 5);
    var r6 := ShiftWord(r5);
    ShiftReads(f, r6, n - 6);
    ShiftReads(f, ShiftWord(r6), n - 7);
  }

  // The check value.

  /** The register after the first `i` bytes of `a`. */
  ghost predicate RegisterAt(f: bv32 -> nat, a: seq<byte>, i: nat, r: bv32) {
    i <= |a| && FeedBits(Ones, MessageBits(a[..i])) == f(r)
  }

  lemma NextRegister(f: bv32 -> nat, a: seq<byte>, i: nat, r: bv32, d: bv32, r': bv32)
    requires ReadsAll(f) && RegisterAt(f, a, i, r) && i < |a| && f(d) == a[i] && r' == ShiftByte(r ^ d)
    ensures RegisterAt(f, a, i + 1, r')
  {
    OneMore(a, i, Ones);
    Up8(0);
    ByteAsBits(f(r), a[i], 8);
    XorReads(f, r, d);
    ShiftByteReads(f, r ^ d, 8);
  }

  ghost predicate NineDigits(a: seq<byte>) {
    |a| == 9 && forall i :: 0 <= i < 9 ==> a[i] == 0x31 + i
  }

  /** `f` reads the characters of the digits 1 to 9. */
  ghost predicate ReadsDigits(f: bv32 -> nat) {
    && f(0x31) == 0x31 && f(0x32) == 0x32 && f(0x33) == 0x33 && f(0x34) == 0x34 && f(0x35) == 0x35
    && f(0x36) == 0x36 && f(0x37) == 0x37 && f(0x38) == 0x38 && f(0x39) == 0x39
  }

  lemma CheckWords()
    ensures ShiftByte(0xFFFFFFFF ^ 0x31) == 0x6f0a661c && ShiftByte(0x6f0a661c ^ 0x32) == 0x8caa3b9f
    ensures ShiftByte(0x8caa3b9f ^ 0x33) == 0xef84d04d && ShiftByte(0xef84d04d ^ 0x34) == 0x09c50b11
    ensures ShiftByte(0x09c50b11 ^ 0x35) == 0xe72edcca && ShiftByte(0xe72edcca ^ 0x36) == 0xbeca8e79
    ensures ShiftByte(0xbeca8e79 ^ 0x37) == 0xedbd6815 && ShiftByte(0xedbd6815 ^ 0x38) == 0x9f787f65
    ensures ShiftByte(0x9f787f65 ^ 0x39) == 0x1cf96d7c
  {
  }

  lemma FirstRegisters(f: bv32 -> nat, a: seq<byte>, i: nat)
    requires ReadsAll(f) && ReadsDigits(f) && RegisterAt(f, a, i, 0xFFFFFFFF)
    requires i + 4 <= |a| && a[i] == 0x31 && a[i + 1] == 0x32 && a[i + 2] == 0x33 && a[i + 3] == 0x34
    ensures RegisterAt(f, a, i + 4, 0x09c50b11)
  {
    CheckWords();
    NextRegister(f, a, i, 0xFFFFFFFF, 0x31, 0x6f0a661c);
    NextRegister(f, a, i + 1, 0x6f0a661c, 0x32, 0x8caa3b9f);
    NextRegister(f, a, i + 2, 0x8caa3b9f, 0x33, 0xef84d04d);
    NextRegister(f, a, i + 3, 0xef84d04d, 0x34, 0x09c50b11);
  }

  lemma LastRegisters(f: bv32 -> nat, a: seq<byte>, i: nat)
    requires ReadsAll(f) && ReadsDigits(f) && RegisterAt(f, a, i, 0x09c50b11)
    requires i + 5 <= |a| && a[i] == 0x35 && a[i + 1] == 0x36 && a[i + 2] == 0x37 && a[i + 3] == 0x38 && a[i + 4] == 0x39
    ensures RegisterAt(f, a, i + 5, 0x1cf96d7c)
  {
    CheckWords();
    NextRegister(f, a, i, 0x09c50b11, 0x35, 0xe72edcca);
    NextRegister(f, a, i + 1, 0xe72edcca, 0x36, 0xbeca8e79);
    NextRegister(f, a, i + 2, 0xbeca8e79, 0x37, 0xedbd6815);
    NextRegister(f, a, i + 3, 0xedbd6815, 0x38, 0x9f787f65);
    NextRegister(f, a, i + 4, 0x9f787f65, 0x39, 0x1cf96d7c);
  }

  /** `f` reads the words that are needed here. */
  ghost predicate ReadsThese(f: bv32 -> nat) {
    && ReadsAll(f) && ReadsDigits(f) && f(0xFFFFFFFF) == Ones
    && f(0x1cf96d7c) == 0x1cf96d7c && f(0xb798b438) == 0xb798b438
  }

  lemma ValDigits()
    ensures ReadsDigits(Val)
  {
  }

  lemma ValWords()
    ensures Val(0xFFFFFFFF) == Ones && Val(PolyWord) == Poly
    ensures Val(0x1cf96d7c) == 0x1cf96d7c && Val(0xb798b438) == 0xb798b438
  {
  }

  lemma Reading() returns (f: bv32 -> nat)
    ensures ReadsThese(f)
  {
    ValReads();
    ValDigits();
    ValWords();
    f := Val;
  }

  /** The checksum of the nine digits is the check value of CRC-32C. */
  lemma CheckValue(a: seq<byte>)
    requires NineDigits(a)
    ensures Reference(a, 0) == 0xE3069283
  {
    var f := Reading();
    CheckFrom(f, a, 0);
    assert a[..9] == a;
  }

  lemma CheckFrom(f: bv32 -> nat, a: seq<byte>, i: nat)
    requires ReadsThese(f) && NineDigits(a) && i == 0
    ensures RegisterAt(f, a, i + 9, 0x1cf96d7c)
  {
    assert a[..i] == [];
    FirstRegisters(f, a, i);
    LastRegisters(f, a, i + 4);
  }

  // The residue.

  lemma {:induction false} BitsSplit(v: nat, m: nat, n: nat)
    ensures BitsOf(v, m + n) == BitsOf(v, m) + BitsOf(Down(v, m), n)
    decreases m
  {
    if m != 0 {
      BitsSplit(v / 2, m - 1, n);
      assert BitsOf(v, m + n) == [v % 2 == 1] + (BitsOf(v / 2, m - 1) + BitsOf(Down(v, m), n));
    }
  }

  lemma {:induction false} BitsBelow(hi: nat, lo: nat, n: nat)
    ensures BitsOf(lo + Up(hi, n), n) == BitsOf(lo, n)
  {
    if n != 0 {
      BitsBelow(hi, lo / 2, n - 1);
      assert (lo + Up(hi, n)) / 2 == lo / 2 + Up(hi, n - 1);
    }
  }

  /** The bits of the bytes of a number are its bits. */
  lemma {:induction false} BytesBits(v: nat, w: nat)
    ensures MessageBits(ToBytes(v, w)) == BitsOf(v, 8 * w)
  {
    if w != 0 {
      BytesBits(v / 256, w - 1);
      BitsSplit(v, 8, 8 * (w - 1));
      Down8(v);
      Up8(v / 256);
      BitsBelow(v / 256, v % 256, 8);
      assert ToBytes(v, w)[1..] == ToBytes(v / 256, w - 1);
    }
  }

  lemma {:induction false} XorNot(v: nat, n: nat)
    requires v < Pow2(n)
    ensures Xor(v, Pow2(n) - 1 - v) == Pow2(n) - 1
  {
    if n != 0 {
      XorNot(v / 2, n - 1);
      XorHalf(v, Pow2(n) - 1 - v);
      assert (Pow2(n) - 1 - v) / 2 == Pow2(n - 1) - 1 - v / 2;
    }
  }

  lemma ResidueRegister(f: bv32 -> nat)
    requires ReadsAll(f) && f(0xFFFFFFFF) == Ones
    ensures ShiftTimes(Ones, 32) == f(0xb798b438)
  {
    assert ShiftByte(0xFFFFFFFF) == 0xad82acae && ShiftByte(0xad82acae) == 0x0e9e882d;
    assert ShiftByte(0x0e9e882d) == 0x9f9b5c85 && ShiftByte(0x9f9b5c85) == 0xb798b438;
    ShiftByteReads(f, 0xFFFFFFFF, 32);
    ShiftByteReads(f, 0xad82acae, 24);
    ShiftByteReads(f, 0x0e9e882d, 16);
    ShiftByteReads(f, 0x9f9b5c85, 8);
  }

  /** A message followed by its own checksum always has the residue of CRC-32C as its checksum. */
  lemma Residue(data: seq<byte>, seed: u32)
    ensures Reference(data + ToBytes(Reference(data, seed), 4), seed) == 0x48674BC7
  {
    var c := Reference(data, seed);
    var r := Not(c);
    Chaining(data, ToBytes(c, 4), seed);
    BytesBits(c, 4);
    Pow32();
    ByteAsBits(r, c, 32);
    XorNot(r, 32);
    var f := Reading();
    ResidueRegister(f);
  }
}
