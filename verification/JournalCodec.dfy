/** The records of the tiering journal and their byte form (`btier/journal.cc`). */
module JournalCodec {
  import opened Options
  import opened Bytes
  import Crc32

  // The widths of the fields.
  const W1: nat := 1
  const W4: nat := 4
  const W8: nat := 8

  type Key = k: seq<byte> | |k| < 0x1_0000_0000

  datatype Record =
    | TxnBegin(txn: u64)
    | KeyPut(txn: u64, key: Key, extentId: u64, offset: u32, length: u32)
    | KeyDel(txn: u64, key: Key)
    | MarkDead(txn: u64, extentId: u64, deadLength: u32)
    | ExtentNew(txn: u64, extentId: u64, diskOffset: u64, diskLength: u32, tier: byte)
    | ExtentFree(txn: u64, extentId: u64)
    | TxnCommit(txn: u64, crc: u32)
    | Checkpoint(txn: u64)
    | Other(op: byte, txn: u64)
  {
    /** A change of the key or extent maps, as opposed to the journal's own framing. */
    predicate IsData() {
      KeyPut? || KeyDel? || MarkDead? || ExtentNew? || ExtentFree?
    }

    function WithTxn(t: u64): Record {
      this.(txn := t)
    }
  }

  /** `Other` stands for operation codes the format does not define. */
  predicate Proper(r: Record) {
    r.Other? ==> r.op == 0 || 8 < r.op
  }

  function OpCode(r: Record): byte {
    match r
    case TxnBegin(_) => 1
    case KeyPut(_, _, _, _, _) => 2
    case KeyDel(_, _) => 3
    case MarkDead(_, _, _) => 4
    case ExtentNew(_, _, _, _, _) => 5
    case ExtentFree(_, _) => 6
    case TxnCommit(_, _) => 7
    case Checkpoint(_) => 8
    case Other(op, _) => op
  }

  function Payload(r: Record): seq<byte> {
    match r
    case KeyPut(_, key, id, offset, length) =>
      ToBytes(|key|, W4) + (key + (ToBytes(id, W8) + (ToBytes(offset, W4) + ToBytes(length, W4))))
    case KeyDel(_, key) => ToBytes(|key|, W4) + key
    case MarkDead(_, id, dead) => ToBytes(id, W8) + ToBytes(dead, W4)
    case ExtentNew(_, id, offset, length, tier) =>
      ToBytes(id, W8) + (ToBytes(offset, W8) + (ToBytes(length, W4) + ToBytes(tier, W1)))
    case ExtentFree(_, id) => ToBytes(id, W8)
    case TxnCommit(_, crc) => ToBytes(crc, W4)
    case _ => []
  }

  /** `serialize_record`. */
  function Serialize(r: Record): (b: seq<byte>)
    ensures 9 <= |b| && b[0] == OpCode(r)
  {
    ToBytes(OpCode(r), W1) + (ToBytes(r.txn, W8) + Payload(r))
  }

  /** Read a `w`-byte integer at `off`; none if the buffer ends before it does. */
  function Get(b: seq<byte>, off: nat, w: nat): (r: Option<nat>)
    ensures r.Some? ==> off + w <= |b| && r.value < Limit(w)
  {
    if |b| < off + w then None
    else
      FromBytesLimit(b[off..off + w]);
      Some(FromBytes(b[off..off + w]))
  }

  function Get8(b: seq<byte>, off: nat): (r: Option<byte>)
    ensures r.Some? ==> off + 1 <= |b|
  {
    Limits();
    Get(b, off, W1)
  }

  function Get32(b: seq<byte>, off: nat): (r: Option<u32>)
    ensures r.Some? ==> off + 4 <= |b|
  {
    Limits();
    Get(b, off, W4)
  }

  function Get64(b: seq<byte>, off: nat): (r: Option<u64>)
    ensures r.Some? ==> off + 8 <= |b|
  {
    Limits();
    Get(b, off, W8)
  }

  function GetKey(b: seq<byte>, off: nat): (r: Option<Key>)
    ensures r.Some? ==> off + 4 + |r.value| <= |b|
  {
    var n := Get32(b, off);
    if n.None? then None else GetBytes(b, off + 4, n.value)
  }

  function GetBytes(b: seq<byte>, off: nat, n: u32): (r: Option<Key>)
    ensures r.Some? ==> off + |r.value| <= |b|
  {
    if |b| < off + n then None else Some(b[off..off + n])
  }

  /** `deserialize_record` at `off`: the record and the offset after it. */
  function Deserialize(b: seq<byte>, off: nat): (r: Option<(Record, nat)>)
    ensures r.Some? ==> off + 9 <= r.value.1 <= |b| && Proper(r.value.0)
  {
    var op := Get8(b, off);
    var txn := Get64(b, off + 1);
    if op.None? || txn.None? then None else Body(op.value, txn.value, b, off + 9)
  }

  function Body(op: byte, txn: u64, b: seq<byte>, off: nat): (r: Option<(Record, nat)>)
    requires off <= |b|
    ensures r.Some? ==> off <= r.value.1 <= |b| && Proper(r.value.0)
  {
    if op == 2 then
      var key := GetKey(b, off);
      if key.None? then None
      else
        var at := off + 4 + |key.value|;
        var id, offset, length := Get64(b, at), Get32(b, at + 8), Get32(b, at + 12);
        if id.None? || offset.None? || length.None? then None
        else Some((KeyPut(txn, key.value, id.value, offset.value, length.value), at + 16))
    else if op == 3 then
      var key := GetKey(b, off);
      if key.None? then None else Some((KeyDel(txn, key.value), off + 4 + |key.value|))
    else if op == 4 then
      var id, dead := Get64(b, off), Get32(b, off + 8);
      if id.None? || dead.None? then None else Some((MarkDead(txn, id.value, dead.value), off + 12))
    else if op == 5 then
      var id, offset, length, tier := Get64(b, off), Get64(b, off + 8), Get32(b, off + 16), Get8(b, off + 20);
      if id.None? || offset.None? || length.None? || tier.None? then None
      else Some((ExtentNew(txn, id.value, offset.value, length.value, tier.value), off + 21))
    else if op == 6 then
      var id := Get64(b, off);
      if id.None? then None else Some((ExtentFree(txn, id.value), off + 8))
    else if op == 7 then
      var crc := Get32(b, off);
      if crc.None? then None else Some((TxnCommit(txn, crc.value), off + 4))
    else if op == 1 then Some((TxnBegin(txn), off))
    else if op == 8 then Some((Checkpoint(txn), off))
    else Some((Other(op, txn), off))
  }

  // Reading back what was written.

  /** The bytes `x` stand at `off`. */
  ghost predicate At(b: seq<byte>, off: nat, x: seq<byte>) {
    off + |x| <= |b| && b[off..off + |x|] == x
  }

  lemma Parts(b: seq<byte>, off: nat, x: seq<byte>, y: seq<byte>)
    requires At(b, off, x + y)
    ensures At(b, off, x) && At(b, off + |x|, y)
  {
    assert b[off..off + |x|] == (x + y)[..|x|] == x;
    assert b[off + |x|..off + |x| + |y|] == (x + y)[|x|..] == y;
  }

  lemma GetBack(b: seq<byte>, off: nat, v: nat, w: nat)
    requires At(b, off, ToBytes(v, w)) && v < Limit(w)
    ensures Get(b, off, w) == Some(v)
  {
    assert b[off..off + w] == ToBytes(v, w);
    RoundTrip(v, w);
  }

  lemma GetKeyBack(b: seq<byte>, off: nat, key: Key)
    requires At(b, off, ToBytes(|key|, W4)) && At(b, off + 4, key)
    ensures GetKey(b, off) == Some(key)
  {
    Get32Back(b, off, |key|);
    GetBytesBack(b, off + 4, key);
  }

  lemma GetBytesBack(b: seq<byte>, off: nat, key: Key)
    requires At(b, off, key)
    ensures GetBytes(b, off, |key|) == Some(key)
  {
  }

  lemma Get32Back(b: seq<byte>, off: nat, v: u32)
    requires At(b, off, ToBytes(v, W4))
    ensures Get32(b, off) == Some(v)
  {
    Limits();
    GetBack(b, off, v, W4);
  }

  lemma BodyBack(b: seq<byte>, off: nat, r: Record)
    requires At(b, off, Payload(r)) && Proper(r) && off <= |b|
    ensures Body(OpCode(r), r.txn, b, off) == Some((r, off + |Payload(r)|))
  {
    Limits();
    match r
    case KeyPut(_, key, id, offset, length) => KeyPutBack(b, off, r);
    case KeyDel(_, key) =>
      Parts(b, off, ToBytes(|key|, W4), key);
      GetKeyBack(b, off, key);
    case MarkDead(_, id, dead) =>
      Parts(b, off, ToBytes(id, W8), ToBytes(dead, W4));
      GetBack(b, off, id, W8);
      GetBack(b, off + 8, dead, W4);
    case ExtentNew(_, id, offset, length, tier) => ExtentNewBack(b, off, r);
    case ExtentFree(_, id) => GetBack(b, off, id, W8);
    case TxnCommit(_, crc) => GetBack(b, off, crc, W4);
    case _ =>
  }

  lemma KeyPutBack(b: seq<byte>, off: nat, r: Record)
    requires r.KeyPut? && At(b, off, Payload(r))
    ensures Body(2, r.txn, b, off) == Some((r, off + |Payload(r)|))
  {
    Limits();
    var n := |r.key|;
    var tail := ToBytes(r.offset, W4) + ToBytes(r.length, W4);
    Parts(b, off, ToBytes(n, W4), r.key + (ToBytes(r.extentId, W8) + tail));
    Parts(b, off + 4, r.key, ToBytes(r.extentId, W8) + tail);
    Parts(b, off + 4 + n, ToBytes(r.extentId, W8), tail);
    Parts(b, off + 4 + n + 8, ToBytes(r.offset, W4), ToBytes(r.length, W4));
    GetKeyBack(b, off, r.key);
    GetBack(b, off + 4 + n, r.extentId, W8);
    GetBack(b, off + 4 + n + 8, r.offset, W4);
    GetBack(b, off + 4 + n + 12, r.length, W4);
  }

  lemma ExtentNewBack(b: seq<byte>, off: nat, r: Record)
    requires r.ExtentNew? && At(b, off, Payload(r))
    ensures Body(5, r.txn, b, off) == Some((r, off + |Payload(r)|))
  {
    Limits();
    var tail := ToBytes(r.diskLength, W4) + ToBytes(r.tier, W1);
    Parts(b, off, ToBytes(r.extentId, W8), ToBytes(r.diskOffset, W8) + tail);
    Parts(b, off + 8, ToBytes(r.diskOffset, W8), tail);
    Parts(b, off + 16, ToBytes(r.diskLength, W4), ToBytes(r.tier, W1));
    GetBack(b, off, r.extentId, W8);
    GetBack(b, off + 8, r.diskOffset, W8);
    GetBack(b, off + 16, r.diskLength, W4);
    GetBack(b, off + 20, r.tier, W1);
  }

  /** Parsing undoes printing, wherever the record stands. */
  lemma RecordRoundTrip(b: seq<byte>, off: nat, r: Record)
    requires At(b, off, Serialize(r)) && Proper(r)
    ensures Deserialize(b, off) == Some((r, off + |Serialize(r)|))
  {
    HeaderBack(b, off, OpCode(r), r.txn, Payload(r));
    BodyBack(b, off + 9, r);
  }

  /** The number in the `w` bytes at `off`, least significant byte first. */
  ghost predicate Field(b: seq<byte>, off: nat, w: nat, v: nat) {
    off + w <= |b| && FromBytes(b[off..off + w]) == v
  }

  /** Where the fields behind the header stand: packed without gaps, a key behind its length. */
  ghost predicate Layout(r: Record, b: seq<byte>) {
    match r
    case TxnBegin(_) => |b| == 9
    case KeyPut(_, key, id, offset, length) =>
      && Field(b, 9, 4, |key|) && At(b, 13, key)
      && Field(b, 13 + |key|, 8, id) && Field(b, 21 + |key|, 4, offset) && Field(b, 25 + |key|, 4, length) && |b| == 29 + |key|
    case KeyDel(_, key) => Field(b, 9, 4, |key|) && At(b, 13, key) && |b| == 13 + |key|
    case MarkDead(_, id, dead) => Field(b, 9, 8, id) && Field(b, 17, 4, dead) && |b| == 21
    case ExtentNew(_, id, offset, length, tier) =>
      Field(b, 9, 8, id) && Field(b, 17, 8, offset) && Field(b, 25, 4, length) && Field(b, 29, 1, tier) && |b| == 30
    case ExtentFree(_, id) => Field(b, 9, 8, id) && |b| == 17
    case TxnCommit(_, crc) => Field(b, 9, 4, crc) && |b| == 13
    case _ => |b| == 9
  }

  lemma BodyLayout(r: Record, b: seq<byte>, off: nat)
    requires off == 9 && off <= |b| && Body(OpCode(r), r.txn, b, off) == Some((r, |b|)) && Proper(r)
    ensures Layout(r, b)
  {
    match r
    case KeyPut(_, _, _, _, _) => KeyPutLayout(r, b, off);
    case KeyDel(_, _) => KeyAt(b, off);
    case _ =>
  }

  lemma KeyAt(b: seq<byte>, off: nat)
    requires GetKey(b, off).Some?
    ensures var key := GetKey(b, off).value; Field(b, off, 4, |key|) && At(b, off + 4, key)
  {
  }

  lemma KeyPutLayout(r: Record, b: seq<byte>, off: nat)
    requires r.KeyPut? && off == 9 && off <= |b| && Body(2, r.txn, b, off) == Some((r, |b|))
    ensures Layout(r, b)
  {
    KeyAt(b, off);
  }

  lemma HeaderLayout(r: Record, b: seq<byte>, off: nat)
    requires off == 0 && b == Serialize(r)
    ensures Field(b, off + 1, 8, r.txn) && At(b, off + 9, Payload(r)) && |b| == 9 + |Payload(r)|
  {
    assert b[off..|b|] == b;
    HeaderBack(b, off, OpCode(r), r.txn, Payload(r));
  }

  lemma LayoutBehind(r: Record, b: seq<byte>, off: nat)
    requires off == 9 && At(b, off, Payload(r)) && |b| == off + |Payload(r)| && Proper(r)
    ensures Layout(r, b)
  {
    BodyBack(b, off, r);
    BodyLayout(r, b, off);
  }

  predicate HasCode(r: Record, code: nat) {
    match r
    case TxnBegin(_) => code == 1
    case KeyPut(_, _, _, _, _) => code == 2
    case KeyDel(_, _) => code == 3
    case MarkDead(_, _, _) => code == 4
    case ExtentNew(_, _, _, _, _) => code == 5
    case ExtentFree(_, _) => code == 6
    case TxnCommit(_, _) => code == 7
    case Checkpoint(_) => code == 8
    case Other(op, _) => code == op
  }

  /** The header is the operation code and the transaction number; the fields follow it. */
  lemma RecordLayout(r: Record, b: seq<byte>)
    requires Proper(r) && b == Serialize(r)
    ensures HasCode(r, b[0]) && Field(b, 1, 8, r.txn) && Layout(r, b)
  {
    HeaderLayout(r, b, 0);
    LayoutBehind(r, b, 9);
  }

  lemma HeaderBack(b: seq<byte>, off: nat, op: byte, txn: u64, rest: seq<byte>)
    requires At(b, off, ToBytes(op, W1) + (ToBytes(txn, W8) + rest))
    ensures Get8(b, off) == Some(op) && Get64(b, off + 1) == Some(txn) && At(b, off + 9, rest)
  {
    Limits();
    Parts(b, off, ToBytes(op, W1), ToBytes(txn, W8) + rest);
    Parts(b, off + 1, ToBytes(txn, W8), rest);
    GetBack(b, off, op, W1);
    GetBack(b, off + 1, txn, W8);
  }

  // Writing back what was read.

  lemma Joined(b: seq<byte>, off: nat, x: seq<byte>, y: seq<byte>)
    requires At(b, off, x) && At(b, off + |x|, y)
    ensures At(b, off, x + y)
  {
    assert b[off..off + |x + y|] == b[off..off + |x|] + b[off + |x|..off + |x| + |y|];
  }

  lemma GetWritten(b: seq<byte>, off: nat, w: nat)
    requires Get(b, off, w).Some?
    ensures At(b, off, ToBytes(Get(b, off, w).value, w))
  {
    BackTrip(b[off..off + w]);
  }

  lemma BodyWritten(op: byte, txn: u64, b: seq<byte>, off: nat)
    requires off <= |b| && Body(op, txn, b, off).Some?
    ensures var (r, end) := Body(op, txn, b, off).value;
            OpCode(r) == op && r.txn == txn && At(b, off, Payload(r)) && end == off + |Payload(r)|
  {
    var (r, end) := Body(op, txn, b, off).value;
    match r
    case KeyPut(_, key, id, offset, length) => KeyPutWritten(txn, b, off);
    case KeyDel(_, key) =>
      GetWritten(b, off, W4);
      Joined(b, off, ToBytes(|key|, W4), key);
    case MarkDead(_, id, dead) =>
      GetWritten(b, off, W8);
      GetWritten(b, off + 8, W4);
      Joined(b, off, ToBytes(id, W8), ToBytes(dead, W4));
    case ExtentNew(_, id, offset, length, tier) => ExtentNewWritten(txn, b, off);
    case ExtentFree(_, id) => GetWritten(b, off, W8);
    case TxnCommit(_, crc) => GetWritten(b, off, W4);
    case _ =>
  }

  lemma KeyPutWritten(txn: u64, b: seq<byte>, off: nat)
    requires off <= |b| && Body(2, txn, b, off).Some?
    ensures var (r, end) := Body(2, txn, b, off).value; At(b, off, Payload(r)) && end == off + |Payload(r)|
  {
    var r := Body(2, txn, b, off).value.0;
    var n := |r.key|;
    GetWritten(b, off, W4);
    GetWritten(b, off + 4 + n, W8);
    GetWritten(b, off + 4 + n + 8, W4);
    GetWritten(b, off + 4 + n + 12, W4);
    var tail := ToBytes(r.offset, W4) + ToBytes(r.length, W4);
    Joined(b, off + 4 + n + 8, ToBytes(r.offset, W4), ToBytes(r.length, W4));
    Joined(b, off + 4 + n, ToBytes(r.extentId, W8), tail);
    Joined(b, off + 4, r.key, ToBytes(r.extentId, W8) + tail);
    Joined(b, off, ToBytes(n, W4), r.key + (ToBytes(r.extentId, W8) + tail));
  }

  lemma ExtentNewWritten(txn: u64, b: seq<byte>, off: nat)
    requires off <= |b| && Body(5, txn, b, off).Some?
    ensures var (r, end) := Body(5, txn, b, off).value; At(b, off, Payload(r)) && end == off + |Payload(r)|
  {
    var r := Body(5, txn, b, off).value.0;
    GetWritten(b, off, W8);
    GetWritten(b, off + 8, W8);
    GetWritten(b, off + 16, W4);
    GetWritten(b, off + 20, W1);
    var tail := ToBytes(r.diskLength, W4) + ToBytes(r.tier, W1);
    Joined(b, off + 16, ToBytes(r.diskLength, W4), ToBytes(r.tier, W1));
    Joined(b, off + 8, ToBytes(r.diskOffset, W8), tail);
    Joined(b, off, ToBytes(r.extentId, W8), ToBytes(r.diskOffset, W8) + tail);
  }

  /** Printing undoes parsing: whatever was read as a record is its printed form. */
  lemma ParseRoundTrip(b: seq<byte>, off: nat)
    requires Deserialize(b, off).Some?
    ensures var (r, end) := Deserialize(b, off).value; At(b, off, Serialize(r)) && end == off + |Serialize(r)|
  {
    var op, txn := Get8(b, off).value, Get64(b, off + 1).value;
    BodyWritten(op, txn, b, off + 9);
    var r := Deserialize(b, off).value.0;
    GetWritten(b, off, W1);
    GetWritten(b, off + 1, W8);
    Joined(b, off + 1, ToBytes(txn, W8), Payload(r));
    Joined(b, off, ToBytes(op, W1), ToBytes(txn, W8) + Payload(r));
  }

  /** Position `p` holds neither the operation code nor a byte of the key's length. */
  predicate IsField(r: Record, p: nat) {
    1 <= p && (r.KeyPut? || r.KeyDel? ==> p < 9 || 13 <= p)
  }

  /** A buffer with the code and the key length of a printed record parses, to its end. */
  lemma SameShape(b: seq<byte>, c: seq<byte>, r: Record)
    requires Deserialize(b, 0) == Some((r, |b|)) && |c| == |b| && c[0..1] == b[0..1]
    requires r.KeyPut? || r.KeyDel? ==> c[9..13] == b[9..13]
    ensures Deserialize(c, 0).Some? && Deserialize(c, 0).value.1 == |c|
  {
    Limits();
    assert Get8(c, 0) == Get8(b, 0);
  }

  lemma KeepsShape(b: seq<byte>, p: nat, x: byte)
    requires 1 <= p < |b|
    ensures b[p := x][0..1] == b[0..1]
    ensures 13 <= |b| && (p < 9 || 13 <= p) ==> b[p := x][9..13] == b[9..13]
  {
  }

  /** Changing one byte of a field gives the printed form of another record of the same kind. */
  lemma FieldByte(r: Record, p: nat, x: byte) returns (r': Record)
    requires IsField(r, p) && p < |Serialize(r)| && Proper(r)
    ensures Serialize(r') == Serialize(r)[p := x] && OpCode(r') == OpCode(r) && Proper(r')
  {
    var b, c := Serialize(r), Serialize(r)[p := x];
    assert b[0..|b|] == b;
    RecordRoundTrip(b, 0, r);
    KeepsShape(b, p, x);
    SameShape(b, c, r);
    ParseRoundTrip(c, 0);
    r' := Deserialize(c, 0).value.0;
  }

  lemma ZeroHeader(b: seq<byte>, off: nat)
    requires off + 9 <= |b| && b[off] == 0
    ensures Deserialize(b, off).Some? && Deserialize(b, off).value.0.Other? && Deserialize(b, off).value.0.op == 0
  {
    assert b[off..off + 1] == [0];
    assert FromBytes([0]) == 0 + 256 * FromBytes([]);
  }

  // The format, as the journal uses it.

  datatype Format = Format(
    put: Record -> seq<byte>,
    get: (seq<byte>, nat) -> Option<(Record, nat)>,
    sum: seq<byte> -> u32)

  /** Reading a record makes progress within the buffer. */
  ghost predicate Progress(f: Format) {
    forall b: seq<byte>, off: nat :: f.get(b, off).Some? ==> off + 9 <= f.get(b, off).value.1 <= |b|
  }

  /** Reading undoes writing. */
  ghost predicate ReadsBack(f: Format) {
    forall b: seq<byte>, off: nat, r :: ReadsBackAt(f, b, off, r)
  }

  ghost predicate ReadsBackAt(f: Format, b: seq<byte>, off: nat, r: Record) {
    Proper(r) && At(b, off, f.put(r)) ==> f.get(b, off) == Some((r, off + |f.put(r)|))
  }

  /** No record is shorter than a header. */
  ghost predicate HasHeaders(f: Format) {
    forall r :: 9 <= |f.put(r)|
  }

  /** A zero byte starts no record. */
  ghost predicate SkipsZeros(f: Format) {
    forall b: seq<byte>, off: nat {:trigger f.get(b, off)} :: off + 9 <= |b| && b[off] == 0 ==> PadAt(f.get(b, off))
  }

  ghost predicate Faithful(f: Format) {
    Progress(f) && ReadsBack(f) && HasHeaders(f) && SkipsZeros(f)
  }

  /** What was read is padding, with operation code zero. */
  predicate PadAt(d: Option<(Record, nat)>) {
    d.Some? && d.value.0.Other? && d.value.0.op == 0
  }

  /** The checksum of a transaction's records; zero for none. */
  function Checksum(b: seq<byte>): (r: u32)
    ensures r == Crc32.Reference(b, 0)
  {
    if b == [] then 0 else Crc32.Reference(b, 0)
  }

  function JournalFormat(): Format {
    Format((r: Record) => Serialize(r), (b, off) => Deserialize(b, off), (b: seq<byte>) => Checksum(b))
  }

  lemma FormatProgress(f: Format)
    requires f.get == JournalFormat().get
    ensures Progress(f)
  {
    forall b: seq<byte>, off: nat | f.get(b, off).Some? ensures off + 9 <= f.get(b, off).value.1 <= |b| {
      var d := Deserialize(b, off);
      assert f.get(b, off) == d;
    }
  }

  lemma FormatReadsBack(f: Format)
    requires f == JournalFormat()
    ensures ReadsBack(f)
  {
    forall b: seq<byte>, off: nat, r ensures ReadsBackAt(f, b, off, r) {
      FormatRecord(f, b, off, r);
    }
  }

  lemma FormatHasHeaders(f: Format)
    requires f == JournalFormat()
    ensures HasHeaders(f)
  {
    forall r ensures 9 <= |f.put(r)| {
      assert f.put(r) == Serialize(r);
    }
  }

  lemma FormatRecord(f: Format, b: seq<byte>, off: nat, r: Record)
    requires f == JournalFormat()
    ensures ReadsBackAt(f, b, off, r)
  {
    assert f.put(r) == Serialize(r) && f.get(b, off) == Deserialize(b, off);
    if Proper(r) && At(b, off, Serialize(r)) {
      RecordRoundTrip(b, off, r);
    }
  }

  lemma FormatSkipsZeros(f: Format)
    requires f == JournalFormat()
    ensures SkipsZeros(f)
  {
    forall b: seq<byte>, off: nat | off + 9 <= |b| && b[off] == 0 ensures PadAt(f.get(b, off)) {
      ZeroHeader(b, off);
    }
  }

  /** The journal's format: parsing undoes printing for every record. */
  lemma JournalFormatIsFaithful()
    ensures Faithful(JournalFormat())
  {
    FormatProgress(JournalFormat());
    FormatReadsBack(JournalFormat());
    FormatHasHeaders(JournalFormat());
    FormatSkipsZeros(JournalFormat());
  }
}
