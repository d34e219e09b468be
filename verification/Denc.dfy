/**
 Variable-length integers (`common/denc.h`): plain, signed, with low zero nibbles
 removed, and block addresses.  Words are their unsigned values.
 */
module Denc {
  import opened Options
  import opened Bytes
  import opened IntArith

  // Plain: seven bits a byte, the high bit says that another byte follows.

  function EncodeVarint(v: nat): (b: seq<byte>)
    ensures b != []
  {
    if v < 128 then [v] else [v % 128 + 128] + EncodeVarint(v / 128)
  }

  /** The value and the bytes after it; none if the buffer ends inside. */
  function DecodeVarint(b: seq<byte>): (r: Option<(nat, seq<byte>)>)
    ensures r.Some? ==> |r.value.1| < |b|
  {
    if b == [] then None
    else if b[0] < 128 then Some((b[0], b[1..]))
    else
      var r := DecodeVarint(b[1..]);
      if r.None? then None else Some((b[0] % 128 + 128 * r.value.0, r.value.1))
  }

  lemma {:induction false} VarintRoundTrip(v: nat, rest: seq<byte>)
    ensures DecodeVarint(EncodeVarint(v) + rest) == Some((v, rest))
  {
    var b := EncodeVarint(v) + rest;
    if v < 128 {
      assert b[1..] == rest;
    } else {
      assert b[1..] == EncodeVarint(v / 128) + rest;
      VarintRoundTrip(v / 128, rest);
    }
  }

  /** The number whose base-128 digits, lowest first, are the low seven bits of the bytes. */
  function Base128(b: seq<byte>): nat {
    if b == [] then 0 else b[0] % 128 + 128 * Base128(b[1..])
  }

  /** The bytes are the digits of the value, without a leading zero; all but the last have the high bit. */
  lemma {:induction false} VarintDigits(v: nat)
    ensures var b := EncodeVarint(v);
            && Base128(b) == v && b[0] % 128 == v % 128
            && (forall i :: 0 <= i < |b| - 1 ==> 128 <= b[i]) && b[|b| - 1] < 128
            && (1 < |b| ==> b[|b| - 1] != 0)
  {
    if 128 <= v {
      VarintDigits(v / 128);
      assert EncodeVarint(v)[1..] == EncodeVarint(v / 128);
    } else {
      assert [v][1..] == [];
    }
  }

  /** `128^k`. */
  ghost function Pow128(k: nat): nat {
    if k == 0 then 1 else 128 * Pow128(k - 1)
  }

  /** The exact length of an encoding. */
  lemma {:induction false} VarintLength(v: nat, k: nat)
    requires 0 < k
    ensures |EncodeVarint(v)| <= k <==> v < Pow128(k)
    decreases k
  {
    if k == 1 {
      assert Pow128(1) == 128 * Pow128(0);
    } else if 128 <= v {
      VarintLength(v / 128, k - 1);
    } else {
      PowGrows(k);
    }
  }

  lemma {:induction false} PowGrows(k: nat)
    requires 0 < k
    ensures 128 <= Pow128(k)
  {
    if k != 1 {
      PowGrows(k - 1);
    }
  }

  lemma Pows()
    ensures Pow128(5) == 0x8_0000_0000 && Pow128(9) == 0x8000_0000_0000_0000 && 0x1_0000_0000_0000_0000 < Pow128(10)
  {
    assert Pow128(1) == 128 && Pow128(2) == 128 * Pow128(1) && Pow128(3) == 128 * Pow128(2) && Pow128(4) == 128 * Pow128(3);
    assert Pow128(6) == 128 * Pow128(5) && Pow128(7) == 128 * Pow128(6) && Pow128(8) == 128 * Pow128(7);
  }

  /** The reserved `sizeof(T) + 1` bytes: enough for every 32-bit value, and for a 64-bit value exactly below 2^63. */
  lemma VarintBound(v: u64)
    ensures v < 0x1_0000_0000 ==> |EncodeVarint(v)| <= 4 + 1
    ensures |EncodeVarint(v)| <= 8 + 1 <==> v < 0x8000_0000_0000_0000
    ensures |EncodeVarint(v)| <= 8 + 2
  {
    Pows();
    VarintLength(v, 5);
    VarintLength(v, 9);
    VarintLength(v, 10);
  }

  /** The encoding loop. */
  method WriteVarint(v0: nat) returns (b: seq<byte>)
    ensures b == EncodeVarint(v0)
  {
    b := [];
    var low: byte := v0 % 128;
    var v: nat := v0 / 128;
    assert v0 == low + 128 * v && [] + EncodeVarint(v0) == EncodeVarint(v0);
    while v != 0
      invariant low < 128 && EncodeVarint(v0) == b + EncodeVarint(low + 128 * v)
      decreases v
    {
      EncodeGroup(low, v);
      assert b + ([low + 128] + EncodeVarint(v % 128 + 128 * (v / 128))) == b + [low + 128] + EncodeVarint(v % 128 + 128 * (v / 128));
      b := b + [low + 128];
      low := v % 128;
      v := v / 128;
    }
    b := b + [low];
  }

  lemma EncodeGroup(low: nat, v: nat)
    requires low < 128 && 0 < v
    ensures EncodeVarint(low + 128 * v) == [low + 128] + EncodeVarint(v % 128 + 128 * (v / 128))
  {
    assert (low + 128 * v) % 128 == low && (low + 128 * v) / 128 == v;
  }

  /** `x << 7k`. */
  function Up7(x: nat, k: nat): nat {
    if k == 0 then x else 128 * Up7(x, k - 1)
  }

  lemma {:induction false} Up7Sum(x: nat, y: nat, k: nat)
    ensures Up7(x + 128 * y, k) == Up7(x, k) + Up7(y, k + 1)
  {
    if k != 0 {
      Up7Sum(x, y, k - 1);
    } else {
      assert Up7(y, 1) == 128 * Up7(y, 0);
    }
  }

  /**
   The decoding loop for a 64-bit value: the groups do not overlap, so joining them
   is adding, and bits beyond the word are dropped.
   */
  method ReadVarint(b: seq<byte>) returns (r: Option<(u64, seq<byte>)>)
    ensures r.None? <==> DecodeVarint(b).None?
    ensures r.Some? ==> r.value.0 == DecodeVarint(b).value.0 % 0x1_0000_0000_0000_0000 && r.value.1 == DecodeVarint(b).value.1
  {
    if b == [] {
      return None;
    }
    var byte, rest := b[0], b[1..];
    var v: u64, k: nat := byte % 128, 1;
    ghost var exact: nat := byte % 128;
    while 128 <= byte
      invariant Joined(b, exact, k, byte, rest) && v == exact % 0x1_0000_0000_0000_0000
      decreases |rest|
    {
      if rest == [] {
        return None;
      }
      JoinMore(b, exact, k, rest);
      byte, rest := rest[0], rest[1..];
      AddTruncated(exact, Up7(byte % 128, k));
      exact := exact + Up7(byte % 128, k);
      v := (v + Up7(byte % 128, k) % 0x1_0000_0000_0000_0000) % 0x1_0000_0000_0000_0000;
      k := k + 1;
    }
    r := Some((v, rest));
  }

  lemma AddTruncated(x: nat, y: nat)
    ensures (x % 0x1_0000_0000_0000_0000 + y % 0x1_0000_0000_0000_0000) % 0x1_0000_0000_0000_0000
         == (x + y) % 0x1_0000_0000_0000_0000
  {
  }

  /** The bytes up to `byte` have contributed `v`; what follows counts from bit `7k` on. */
  ghost predicate Joined(b: seq<byte>, v: nat, k: nat, byte: byte, rest: seq<byte>) {
    if byte < 128 then DecodeVarint(b) == Some((v, rest))
    else
      var d := DecodeVarint(rest);
      DecodeVarint(b) == if d.None? then None else Some((v + Up7(d.value.0, k), d.value.1))
  }

  lemma JoinMore(b: seq<byte>, v: nat, k: nat, rest: seq<byte>)
    requires rest != [] && Joined(b, v, k, 128, rest)
    ensures Joined(b, v + Up7(rest[0] % 128, k), k + 1, rest[0], rest[1..])
  {
    if 128 <= rest[0] {
      var d := DecodeVarint(rest[1..]);
      if d.Some? {
        Up7Sum(rest[0] % 128, d.value.0, k);
      }
    }
  }

  // Signed: the sign in the low bit.

  const Two62: int := 0x4000_0000_0000_0000
  const Two63: int := 0x8000_0000_0000_0000
  const Two64: int := 0x1_0000_0000_0000_0000

  /** A 64-bit two's complement value. */
  function Wrap(x: int): int {
    (x + Two63) % Two64 - Two63
  }

  /** The word that `denc_signed_varint` hands to the plain encoding. */
  function SignedWord(v: int): int {
    if v < 0 then Wrap(2 * -v + 1) else Wrap(2 * v)
  }

  function Unsign(i: nat): int {
    if i % 2 == 1 then -(i / 2) else i / 2
  }

  /** The word is a valid unsigned value exactly within 62 bits and sign; then it reads back. */
  lemma SignedRoundTrip(v: int, rest: seq<byte>)
    requires -Two63 < v < Two63
    ensures 0 <= SignedWord(v) <==> -Two62 < v < Two62
    ensures 0 <= SignedWord(v) ==> DecodeVarint(EncodeVarint(SignedWord(v)) + rest) == Some((SignedWord(v), rest))
    ensures 0 <= SignedWord(v) ==> Unsign(SignedWord(v)) == v && |EncodeVarint(SignedWord(v))| <= 9
  {
    SignedFits(v);
    if 0 <= SignedWord(v) {
      VarintRoundTrip(SignedWord(v), rest);
      VarintBound(SignedWord(v));
    }
  }

  /** The lowest bit of the first byte is the sign; the digits make twice the magnitude, and the sign. */
  lemma SignedForm(v: int)
    requires -Two62 < v < Two62
    ensures 0 <= SignedWord(v) && (EncodeVarint(SignedWord(v))[0] % 2 == 1 <==> v < 0)
    ensures Base128(EncodeVarint(SignedWord(v))) == if v < 0 then 2 * -v + 1 else 2 * v
  {
    WrapBelow(if v < 0 then 2 * -v + 1 else 2 * v);
    VarintDigits(SignedWord(v));
    Parity(EncodeVarint(SignedWord(v))[0], SignedWord(v));
  }

  lemma Parity(a: nat, w: nat)
    requires a % 128 == w % 128
    ensures a % 2 == w % 2 && a % 4 == w % 4
  {
    SplitBy(a, 128, 64, 2);
    SplitBy(w, 128, 64, 2);
    SplitBy(a, 128, 32, 4);
    SplitBy(w, 128, 32, 4);
  }

  lemma SplitBy(a: nat, m: nat, k: nat, d: nat)
    requires 0 < d && 0 < m && m == k * d
    ensures a % d == a % m % d
  {
    DivMod(a, m);
    var q := a / m;
    assert a == a % m + (q * k) * d by {
      assert q * (k * d) == (q * k) * d;
    }
    AddMultiple(a % m, q * k, d);
  }

  lemma AddMultiple(b: nat, k: nat, d: nat)
    requires 0 < d
    ensures (b + k * d) % d == b % d
  {
    DivMod(b, d);
    assert b + k * d == (b / d + k) * d + b % d;
    DivUnique(b + k * d, d, b / d + k, b % d);
  }

  lemma SignedFits(v: int)
    requires -Two63 < v < Two63
    ensures 0 <= SignedWord(v) <==> -Two62 < v < Two62
    ensures 0 <= SignedWord(v) ==> SignedWord(v) < Two63 && Unsign(SignedWord(v)) == v
  {
    WrapBelow(if v < 0 then 2 * -v + 1 else 2 * v);
  }

  lemma WrapBelow(x: nat)
    requires x < Two64
    ensures Wrap(x) == if x < Two63 then x else x - Two64
  {
  }

  /** The arithmetic shift of the encoding loop, `k` times by seven places. */
  function Sar7(v: int, k: nat): int
    decreases k
  {
    if k == 0 then v else Sar7(v / 128, k - 1)
  }

  /** A negative word never becomes zero, so the encoding loop does not end on it. */
  lemma {:induction false} NegativeNeverEnds(v: int, k: nat)
    requires v < 0
    ensures Sar7(v, k) < 0
    decreases k
  {
    if k != 0 {
      NegativeNeverEnds(v / 128, k - 1);
    }
  }

  // Low zero nibbles.

  function Nibbles(v: nat): nat {
    if v == 0 then 0 else Ctz(v) / 4
  }

  lemma NibblesStep(v: nat)
    requires 0 < v
    ensures Nibbles(v) == if v % 16 == 0 then 1 + Nibbles(v / 16) else 0
  {
    var a := v / 2;
    var b := a / 2;
    var c := b / 2;
    var d := c / 2;
    FourBits(v, a, b, c, d);
    if v % 2 == 1 {
    } else if a % 2 == 1 {
      assert Ctz(a) == 0 && Ctz(v) == 1;
    } else if b % 2 == 1 {
      assert Ctz(b) == 0 && Ctz(a) == 1 && Ctz(v) == 2;
    } else if c % 2 == 1 {
      assert Ctz(c) == 0 && Ctz(b) == 1 && Ctz(a) == 2 && Ctz(v) == 3;
    } else {
      assert Ctz(c) == 1 + Ctz(d) && Ctz(b) == 2 + Ctz(d) && Ctz(a) == 3 + Ctz(d) && Ctz(v) == 4 + Ctz(d);
    }
  }

  lemma FourBits(v: nat, a: nat, b: nat, c: nat, d: nat)
    requires a == v / 2 && b == a / 2 && c == b / 2 && d == c / 2
    ensures v / 16 == d
    ensures v % 16 == 0 <==> v % 2 == 0 && a % 2 == 0 && b % 2 == 0 && c % 2 == 0
  {
    assert v == 16 * d + (8 * (c % 2) + 4 * (b % 2) + 2 * (a % 2) + v % 2);
  }

  /** `v << 4n` and `v >> 4n`. */
  function Up4(v: nat, n: nat): nat {
    if n == 0 then v else 16 * Up4(v, n - 1)
  }

  function Down4(v: nat, n: nat): nat
    decreases n
  {
    if n == 0 then v else Down4(v / 16, n - 1)
  }

  /** Zero nibbles can be shifted out and back in. */
  lemma {:induction false} NibblesBack(v: nat, n: nat)
    requires n <= Nibbles(v)
    ensures Up4(Down4(v, n), n) == v
    decreases n
  {
    if n != 0 {
      NibblesStep(v);
      NibblesBack(v / 16, n - 1);
    }
  }

  function LowzNibbles(v: u64): nat {
    if 3 < Nibbles(v) then 3 else Nibbles(v)
  }

  lemma {:induction false} DownBelow(v: nat, n: nat)
    ensures Down4(v, n) <= v
    decreases n
  {
    if n != 0 {
      DownBelow(v / 16, n - 1);
    }
  }

  /** The word of `denc_varint_lowz`; the shift by two drops the top bits. */
  function LowzWord(v: u64): u64 {
    FourTimes(Down4(v, LowzNibbles(v)), LowzNibbles(v));
    4 * Down4(v, LowzNibbles(v)) % Two64 + LowzNibbles(v)
  }

  lemma FourTimes(d: nat, n: nat)
    requires n < 4
    ensures 0 <= 4 * d % Two64 + n < Two64
    ensures (4 * d % Two64 + n) % 4 == n && (4 * d % Two64 + n) / 4 == d % Two62
  {
    assert 4 * d % Two64 == 4 * (d % Two62);
  }

  /** The decoder's last step. */
  function LowzValue(i: u64): nat {
    Up4(i / 4, i % 4) % Two64
  }

  lemma {:induction false} UpStrict(x: nat, y: nat, n: nat)
    requires x < y
    ensures Up4(x, n) < Up4(y, n)
  {
    if n != 0 {
      UpStrict(x, y, n - 1);
    }
  }

  /** The value reads back if and only if its shifted form fits into 62 bits. */
  lemma LowzRoundTrip(v: u64, rest: seq<byte>)
    ensures DecodeVarint(EncodeVarint(LowzWord(v)) + rest) == Some((LowzWord(v), rest))
    ensures LowzValue(LowzWord(v)) == v <==> Down4(v, LowzNibbles(v)) < Two62
    ensures |EncodeVarint(LowzWord(v))| <= 8 + 2
  {
    var n := LowzNibbles(v);
    VarintRoundTrip(LowzWord(v), rest);
    VarintBound(LowzWord(v));
    NibblesBack(v, n);
    FourTimes(Down4(v, n), n);
    LowzBack(v, LowzWord(v), n, Down4(v, n));
  }

  /** The two low bits of the first byte count the zero nibbles removed: all of them, up to three. */
  lemma LowzForm(v: u64)
    ensures EncodeVarint(LowzWord(v))[0] % 4 ==
            if v % 16 != 0 || v == 0 then 0 else if v % 0x100 != 0 then 1 else if v % 0x1000 != 0 then 2 else 3
  {
    if v != 0 {
      NibblesAre(v);
    }
    FourTimes(Down4(v, LowzNibbles(v)), LowzNibbles(v));
    VarintDigits(LowzWord(v));
    Parity(EncodeVarint(LowzWord(v))[0], LowzWord(v));
  }

  lemma LowzBack(v: u64, i: u64, n: nat, d: nat)
    requires i % 4 == n && i / 4 == d % Two62 && Up4(d, n) == v
    ensures LowzValue(i) == v <==> d < Two62
  {
    if Two62 <= d {
      TopLost(d, n, v);
    }
  }

  lemma TopLost(d: nat, n: nat, v: u64)
    requires Two62 <= d && Up4(d, n) == v
    ensures Up4(d % Two62, n) % Two64 != v
  {
    UpStrict(d % Two62, d, n);
  }

  // Block addresses: a tagged 31-bit word, then seven bits a byte.

  /** How an address is cut: the zero bits dropped, the bits of the tag, and the data bits of the word. */
  datatype Form = Bytewise | Zeros12 | Zeros16 | Zeros20

  function FormOf(v: u64): Form {
    var t := Nibbles(v) - 3;
    if t < 0 then Bytewise else if t == 0 then Zeros12 else if t == 1 then Zeros16 else Zeros20
  }

  /** `v >> low`. */
  function Shifted(f: Form, v: nat): nat {
    match f
    case Bytewise => v
    case Zeros12 => v / 0x1000
    case Zeros16 => v / 0x1_0000
    case Zeros20 => v / 0x10_0000
  }

  /** The word without its top bit: the tag, and `x << pos` masked to 31 bits. */
  function LbaWord(f: Form, x: nat): (w: nat)
    ensures w < 0x8000_0000
  {
    match f
    case Bytewise => 7 + 8 * (x % 0x1000_0000)
    case Zeros12 => 2 * (x % 0x4000_0000)
    case Zeros16 => 1 + 4 * (x % 0x2000_0000)
    case Zeros20 => 3 + 8 * (x % 0x1000_0000)
  }

  /** `x >> (31 - pos)`. */
  function Continued(f: Form, x: nat): nat {
    match f
    case Bytewise => x / 0x1000_0000
    case Zeros12 => x / 0x4000_0000
    case Zeros16 => x / 0x2000_0000
    case Zeros20 => x / 0x1000_0000
  }

  /** `denc_lba`. */
  function EncodeLba(v: u64): seq<byte> {
    EncodeParts(FormOf(v), Shifted(FormOf(v), v))
  }

  /** The word of the shifted address `x`, and what does not fit into it. */
  function EncodeParts(f: Form, x: nat): seq<byte> {
    var w, rest := LbaWord(f, x), Continued(f, x);
    if rest == 0 then ToBytes(w, 4) else ToBytes(w + 0x8000_0000, 4) + EncodeVarint(rest)
  }

  function Tag(word: nat): Form {
    if word % 2 == 0 then Zeros12
    else if word % 4 == 1 then Zeros16
    else if word % 8 == 3 then Zeros20
    else Bytewise
  }

  /** The part of the address in the word. */
  function LbaLow(word: nat): nat {
    var w := word % 0x8000_0000;
    match Tag(word)
    case Zeros12 => w / 2 * 0x1000
    case Zeros16 => w / 4 * 0x1_0000
    case Zeros20 => w / 8 * 0x10_0000
    case Bytewise => w / 8
  }

  /** The part in the bytes after it: `n << shift`. */
  function LbaHigh(f: Form, n: nat): nat {
    match f
    case Zeros12 => n * 0x400_0000_0000
    case Zeros16 => n * 0x2000_0000_0000
    case Zeros20 => n * 0x1_0000_0000_0000
    case Bytewise => n * 0x1000_0000
  }

  function DecodeLba(b: seq<byte>): Option<(u64, seq<byte>)> {
    if |b| < 4 then None
    else
      var word := FromBytes(b[..4]);
      if word < 0x8000_0000 then Some((LbaLow(word) % 0x1_0000_0000_0000_0000, b[4..]))
      else
        var d := DecodeVarint(b[4..]);
        if d.None? then None
        else Some(((LbaLow(word) + LbaHigh(Tag(word), d.value.0)) % 0x1_0000_0000_0000_0000, d.value.1))
  }

  lemma TopBit(w: nat)
    requires w < 0x8000_0000
    ensures (w + 0x8000_0000) % 0x8000_0000 == w == w % 0x8000_0000
    ensures (w + 0x8000_0000) % 2 == w % 2 && (w + 0x8000_0000) % 4 == w % 4 && (w + 0x8000_0000) % 8 == w % 8
  {
  }

  /** The continuation bit changes neither the tag nor the data. */
  lemma TopBitIgnored(w: nat)
    requires w < 0x8000_0000
    ensures Tag(w + 0x8000_0000) == Tag(w) && LbaLow(w + 0x8000_0000) == LbaLow(w)
  {
    TopBit(w);
  }

  lemma EightParts(w: nat, d: nat, r: nat)
    requires w == r + 8 * d && r < 8
    ensures w % 8 == r && w / 8 == d
  {
  }

  lemma FourParts(w: nat, d: nat, r: nat)
    requires w == r + 4 * d && r < 4
    ensures w % 4 == r && w / 4 == d
    ensures r == 1 || r == 3 ==> w % 2 == 1
  {
    if r == 1 || r == 3 {
      TwoParts(w, 2 * d + r / 2);
    }
  }

  lemma TwoParts(w: nat, d: nat)
    requires w == 1 + 2 * d
    ensures w % 2 == 1
  {
  }

  lemma BytewiseWord(d: nat)
    requires d < 0x1000_0000
    ensures Tag(7 + 8 * d) == Bytewise && LbaLow(7 + 8 * d) == d
  {
    EightParts(7 + 8 * d, d, 7);
    FourParts(7 + 8 * d, 2 * d + 1, 3);
  }

  lemma Zeros12Word(d: nat)
    requires d < 0x4000_0000
    ensures Tag(2 * d) == Zeros12 && LbaLow(2 * d) == d * 0x1000
  {
    var w := 2 * d;
    assert w % 2 == 0 && w / 2 == d;
  }

  lemma Zeros16Word(d: nat)
    requires d < 0x2000_0000
    ensures Tag(1 + 4 * d) == Zeros16 && LbaLow(1 + 4 * d) == d * 0x1_0000
  {
    FourParts(1 + 4 * d, d, 1);
  }

  lemma Zeros20Word(d: nat)
    requires d < 0x1000_0000
    ensures Tag(3 + 8 * d) == Zeros20 && LbaLow(3 + 8 * d) == d * 0x10_0000
  {
    EightParts(3 + 8 * d, d, 3);
    FourParts(3 + 8 * d, 2 * d, 3);
  }

  /** The tag survives in the word whatever the data, and the two parts make up the address. */
  lemma LbaParts(f: Form, x: nat)
    ensures Tag(LbaWord(f, x)) == f
    ensures LbaLow(LbaWord(f, x)) + LbaHigh(f, Continued(f, x)) == Unshifted(f, x)
  {
    match f
    case Bytewise => BytewiseWord(x % 0x1000_0000);
    case Zeros12 => Zeros12Word(x % 0x4000_0000);
    case Zeros16 => Zeros16Word(x % 0x2000_0000);
    case Zeros20 => Zeros20Word(x % 0x1000_0000);
  }

  /** `x << low`. */
  function Unshifted(f: Form, x: nat): nat {
    match f
    case Bytewise => x
    case Zeros12 => x * 0x1000
    case Zeros16 => x * 0x1_0000
    case Zeros20 => x * 0x10_0000
  }

  lemma FormExact(v: u64)
    ensures Unshifted(FormOf(v), Shifted(FormOf(v), v)) == v
  {
    if v != 0 {
      NibblesStep(v);
      if v % 16 == 0 {
        NibblesStep(v / 16);
        if v / 16 % 16 == 0 {
          NibblesStep(v / 16 / 16);
          DeepNibbles(v);
        }
      }
    }
  }

  lemma Scale16(v: nat, b: nat)
    requires v == 0x1000 * b
    ensures v % 0x1000 == 0
    ensures b % 16 == 0 ==> v % 0x1_0000 == 0
    ensures b % 16 == 0 && b / 16 % 16 == 0 ==> v % 0x10_0000 == 0
  {
    if b % 16 == 0 {
      var c := b / 16;
      assert v == 0x1_0000 * c;
      if c % 16 == 0 {
        assert v == 0x10_0000 * (c / 16);
      }
    }
  }

  /** The zero nibbles beyond the third. */
  lemma DeepNibbles(v: nat)
    requires 0 < v && v % 16 == 0 && v / 16 % 16 == 0
    requires Nibbles(v) == 2 + Nibbles(v / 16 / 16)
    ensures 3 <= Nibbles(v) ==> v % 0x1000 == 0
    ensures 4 <= Nibbles(v) ==> v % 0x1_0000 == 0
    ensures 5 <= Nibbles(v) ==> v % 0x10_0000 == 0
  {
    var a := v / 16 / 16;
    assert v == 0x100 * a;
    NibblesStep(a);
    if a % 16 == 0 {
      Scale16(v, a / 16);
      NibblesStep(a / 16);
      if a / 16 % 16 == 0 {
        NibblesStep(a / 16 / 16);
      }
    }
  }

  lemma WordBack(w: nat, tail: seq<byte>, n: nat)
    requires n == 4 && w < 0x1_0000_0000
    ensures |ToBytes(w, n) + tail| >= 4 && FromBytes((ToBytes(w, n) + tail)[..4]) == w && (ToBytes(w, n) + tail)[4..] == tail
  {
    Limits();
    RoundTrip(w, n);
    assert (ToBytes(w, n) + tail)[..4] == ToBytes(w, n);
  }

  /** Reading the word and what follows it. */
  lemma DecodeParts(f: Form, x: nat, v: u64, tail: seq<byte>, rest: seq<byte>)
    requires Unshifted(f, x) == v
    requires if Continued(f, x) == 0 then tail == rest else tail == EncodeVarint(Continued(f, x)) + rest
    ensures DecodeLba(ToBytes(LbaWord(f, x) + (if Continued(f, x) == 0 then 0 else 0x8000_0000), 4) + tail) == Some((v, rest))
  {
    var n := Continued(f, x);
    LbaParts(f, x);
    TopBitIgnored(LbaWord(f, x));
    if n != 0 {
      VarintRoundTrip(n, rest);
    }
    DecodeWord(LbaWord(f, x) + (if n == 0 then 0 else 0x8000_0000), f, n, v, tail, rest, 4);
  }

  lemma DecodeWord(w: nat, f: Form, n: nat, v: u64, tail: seq<byte>, rest: seq<byte>, four: nat)
    requires four == 4 && w < 0x1_0000_0000 && Tag(w) == f && LbaLow(w) + LbaHigh(f, n) == v
    requires if w < 0x8000_0000 then n == 0 && tail == rest else DecodeVarint(tail) == Some((n, rest))
    ensures DecodeLba(ToBytes(w, four) + tail) == Some((v, rest))
  {
    WordBack(w, tail, four);
  }

  /** Every 64-bit address reads back, in each of the four forms. */
  lemma LbaRoundTrip(v: u64, rest: seq<byte>)
    ensures DecodeLba(EncodeLba(v) + rest) == Some((v, rest))
  {
    FormExact(v);
    EncodedBack(FormOf(v), Shifted(FormOf(v), v), v, rest);
  }

  lemma EncodedBack(f: Form, x: nat, v: u64, rest: seq<byte>)
    requires Unshifted(f, x) == v
    ensures DecodeLba(EncodeParts(f, x) + rest) == Some((v, rest))
  {
    var n := Continued(f, x);
    if n == 0 {
      DecodeParts(f, x, v, rest, rest);
    } else {
      DecodeParts(f, x, v, EncodeVarint(n) + rest, rest);
      Regroup(ToBytes(LbaWord(f, x) + 0x8000_0000, 4), EncodeVarint(n), rest);
    }
  }

  lemma Regroup(a: seq<byte>, b: seq<byte>, c: seq<byte>)
    ensures a + b + c == a + (b + c)
  {
  }

  lemma Divides(v: nat, p: nat)
    requires 0 < p
    ensures v % (16 * p) == 0 <==> v % 16 == 0 && v / 16 % p == 0
  {
    var q := v / 16;
    var a, b := q / p, q % p;
    DivMod(q, p);
    assert v == 16 * (a * p + b) + v % 16 == a * (16 * p) + (16 * b + v % 16);
    DivUnique(v, 16 * p, a, 16 * b + v % 16);
  }

  lemma Divides16(v: nat)
    ensures v % 0x100 == 0 <==> v % 16 == 0 && v / 16 % 16 == 0
    ensures v % 0x1000 == 0 <==> v % 16 == 0 && v / 16 % 0x100 == 0
    ensures v % 0x1_0000 == 0 <==> v % 16 == 0 && v / 16 % 0x1000 == 0
    ensures v % 0x10_0000 == 0 <==> v % 16 == 0 && v / 16 % 0x1_0000 == 0
  {
    Divides(v, 16);
    Divides(v, 0x100);
    Divides(v, 0x1000);
    Divides(v, 0x1_0000);
  }

  /** The number of zero nibbles, by divisibility. */
  lemma NibblesAre(v: nat)
    requires v != 0
    ensures 1 <= Nibbles(v) <==> v % 16 == 0
    ensures 2 <= Nibbles(v) <==> v % 0x100 == 0
    ensures 3 <= Nibbles(v) <==> v % 0x1000 == 0
    ensures 4 <= Nibbles(v) <==> v % 0x1_0000 == 0
    ensures 5 <= Nibbles(v) <==> v % 0x10_0000 == 0
  {
    NibblesStep(v);
    Divides16(v);
    if v % 16 == 0 {
      NibblesAre(v / 16);
    }
  }

  /** The lowest byte has the tag of the word. */
  lemma ByteTag(w: nat)
    ensures Tag(w % 256) == Tag(w)
  {
    SplitBy(w, 256, 128, 2);
    SplitBy(w, 256, 64, 4);
    SplitBy(w, 256, 32, 8);
  }

  lemma LowestByte(w: nat, n: nat, tail: seq<byte>)
    requires 0 < n
    ensures (ToBytes(w, n) + tail)[0] == w % 256 && |ToBytes(w, n) + tail| == n + |tail|
  {
  }

  lemma VarintNonempty(n: nat)
    ensures EncodeVarint(n) != []
  {
  }

  lemma PartsForm(f: Form, x: nat, n: nat)
    requires n == 4
    ensures var b := EncodeParts(f, x); b != [] && Tag(b[0]) == f && (|b| == 4 <==> Continued(f, x) == 0)
  {
    var w := LbaWord(f, x);
    LbaParts(f, x);
    TopBitIgnored(w);
    ByteTag(w);
    ByteTag(w + 0x8000_0000);
    LowestByte(w, n, []);
    LowestByte(w + 0x8000_0000, n, EncodeVarint(Continued(f, x)));
    VarintNonempty(Continued(f, x));
  }

  /**
   The tag in the first byte says how many zero nibbles were cut, as many of three,
   four and five as there are; four bytes are enough exactly when what is left fits
   beside the tag.
   */
  lemma LbaForm(v: u64)
    ensures EncodeLba(v) != []
    ensures Tag(EncodeLba(v)[0]) == if v == 0 || v % 0x1000 != 0 then Bytewise
                                    else if v % 0x1_0000 != 0 then Zeros12
                                    else if v % 0x10_0000 != 0 then Zeros16
                                    else Zeros20
    ensures |EncodeLba(v)| == 4 <==> v < WordHolds(Tag(EncodeLba(v)[0]))
  {
    FormIs(v);
    FitsWord(FormOf(v), v);
    PartsForm(FormOf(v), Shifted(FormOf(v), v), 4);
  }

  /** The addresses of a form below this need no further byte. */
  function WordHolds(f: Form): nat {
    match f
    case Bytewise => 0x1000_0000
    case Zeros12 => 0x400_0000_0000
    case Zeros16 => 0x2000_0000_0000
    case Zeros20 => 0x1_0000_0000_0000
  }

  lemma FormIs(v: u64)
    ensures FormOf(v) == if v == 0 || v % 0x1000 != 0 then Bytewise
                         else if v % 0x1_0000 != 0 then Zeros12
                         else if v % 0x10_0000 != 0 then Zeros16
                         else Zeros20
  {
    if v != 0 {
      NibblesAre(v);
    }
  }

  lemma FitsWord(f: Form, v: nat)
    ensures Continued(f, Shifted(f, v)) == 0 <==> v < WordHolds(f)
  {
  }

  lemma LbaBound(v: u64)
    ensures |EncodeLba(v)| <= 8 + 2
  {
    var f := FormOf(v);
    var n := Continued(f, Shifted(f, v));
    assert n < 0x400_0000_0000;
    assert Pow128(1) == 128 && Pow128(2) == 128 * Pow128(1) && Pow128(3) == 128 * Pow128(2);
    assert Pow128(4) == 128 * Pow128(3) && Pow128(5) == 128 * Pow128(4) && Pow128(6) == 0x400_0000_0000;
    VarintLength(n, 6);
  }

  /** Shifting and masking to 31 bits keeps the low bits of the data. */
  lemma MaskedShift(x: nat)
    ensures 8 * x % 0x8000_0000 == 8 * (x % 0x1000_0000)
    ensures 4 * x % 0x8000_0000 == 4 * (x % 0x2000_0000)
    ensures 2 * x % 0x8000_0000 == 2 * (x % 0x4000_0000)
  {
    Remainder31(x / 0x1000_0000, 8 * (x % 0x1000_0000), 8 * x);
    Remainder31(x / 0x2000_0000, 4 * (x % 0x2000_0000), 4 * x);
    Remainder31(x / 0x4000_0000, 2 * (x % 0x4000_0000), 2 * x);
  }

  lemma Remainder31(q: nat, r: nat, y: nat)
    requires y == q * 0x8000_0000 + r && r < 0x8000_0000
    ensures y % 0x8000_0000 == r
  {
  }

  /** The body of `denc_lba`; the tag and the shifted data do not overlap. */
  method WriteLba(v0: u64) returns (b: seq<byte>)
    ensures b == EncodeLba(v0)
  {
    var t := Nibbles(v0) - 3;
    var v: nat, word: nat := v0, 0;
    if t < 0 {
      MaskedShift(v);
      word, v := 7 + 8 * v % 0x8000_0000, v / 0x1000_0000;
    } else if t == 0 {
      v := v / 0x1000;
      MaskedShift(v);
      word, v := 2 * v % 0x8000_0000, v / 0x4000_0000;
    } else if t == 1 {
      v := v / 0x1_0000;
      MaskedShift(v);
      word, v := 1 + 4 * v % 0x8000_0000, v / 0x2000_0000;
    } else {
      v := v / 0x10_0000;
      MaskedShift(v);
      word, v := 3 + 8 * v % 0x8000_0000, v / 0x1000_0000;
    }
    if v == 0 {
      return ToBytes(word, 4);
    }
    b := ToBytes(word + 0x8000_0000, 4);
    var tail := WriteVarint(v);
    b := b + tail;
  }
}
