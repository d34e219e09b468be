/**
 The journal's byte image and the scan that recovers it (`btier/journal.cc`):
 transactions padded to 4096-byte blocks, read back record by record.
 */
module JournalScan {
  import opened Options
  import opened Bytes
  import opened JournalCodec

  const Block: nat := 4096

  /** A committed transaction; a checkpoint carries one more framing record. */
  datatype Txn = Txn(id: u64, records: seq<Record>, checkpoint: bool)

  ghost predicate WellFormed(t: Txn) {
    forall i :: 0 <= i < |t.records| ==> t.records[i].IsData()
  }

  ghost predicate AllWellFormed(ts: seq<Txn>) {
    forall i :: 0 <= i < |ts| ==> WellFormed(ts[i])
  }

  function PutAll(f: Format, rs: seq<Record>): seq<byte> {
    if rs == [] then [] else f.put(rs[0]) + PutAll(f, rs[1..])
  }

  lemma {:induction false} PutMore(f: Format, rs: seq<Record>, r: Record)
    ensures PutAll(f, rs + [r]) == PutAll(f, rs) + f.put(r)
  {
    if rs == [] {
      assert rs + [r] == [r] && [r][1..] == [];
    } else {
      assert (rs + [r])[1..] == rs[1..] + [r];
      PutMore(f, rs[1..], r);
      assert PutAll(f, rs + [r]) == f.put(rs[0]) + (PutAll(f, rs[1..]) + f.put(r));
    }
  }

  /** What `commit_txn` and `checkpoint` write, before padding. */
  function Frame(f: Format, t: Txn): seq<byte> {
    FrameWith(f, t, t.id, f.sum(PutAll(f, t.records)))
  }

  /** The transaction closed by a commit record of any number and checksum. */
  function FrameWith(f: Format, t: Txn, number: u64, crc: u32): seq<byte> {
    f.put(TxnBegin(t.id))
    + ((if t.checkpoint then f.put(Checkpoint(t.id)) else [])
       + (PutAll(f, t.records) + f.put(TxnCommit(number, crc))))
  }

  /** The commit record belongs to the transaction. */
  predicate Closes(f: Format, t: Txn, number: u64, crc: u32) {
    number == t.id && crc == f.sum(PutAll(f, t.records))
  }

  /** `round_up_to(len, 4096)`, and one block for nothing. */
  function PaddedLength(len: nat): (r: nat)
    ensures len <= r && (len != 0 ==> r < len + Block) && (len == 0 ==> r == Block)
    ensures r % Block == 0 && r % 4096 == 0 && 0 < r
  {
    if len == 0 then Block else if len % Block == 0 then len else len + (Block - len % Block)
  }

  function Pad(b: seq<byte>): (r: seq<byte>)
    ensures |r| == PaddedLength(|b|) && r[..|b|] == b
    ensures forall i :: |b| <= i < |r| ==> r[i] == 0
  {
    b + Zeros(PaddedLength(|b|) - |b|)
  }

  function Image(f: Format, ts: seq<Txn>): (r: seq<byte>)
    ensures |r| % Block == 0
  {
    if ts == [] then []
    else
      var first, rest := Pad(Frame(f, ts[0])), Image(f, ts[1..]);
      BlockSum(|first|, |rest|);
      first + rest
  }

  lemma BlockSum(m: nat, n: nat)
    requires m % Block == 0 && n % Block == 0
    ensures (m + n) % Block == 0
  {
  }

  function Records(ts: seq<Txn>): seq<Record> {
    if ts == [] then [] else ts[0].records + Records(ts[1..])
  }

  lemma {:induction false} ImageMore(f: Format, ts: seq<Txn>, t: Txn)
    ensures Image(f, ts + [t]) == Image(f, ts) + Pad(Frame(f, t))
  {
    if ts == [] {
      assert ts + [t] == [t] && [t][1..] == [];
    } else {
      assert (ts + [t])[1..] == ts[1..] + [t];
      ImageMore(f, ts[1..], t);
      Regroup(Pad(Frame(f, ts[0])), Image(f, ts[1..]), Pad(Frame(f, t)));
    }
  }

  lemma Regroup(a: seq<byte>, b: seq<byte>, c: seq<byte>)
    ensures a + (b + c) == (a + b) + c
  {
  }

  lemma {:induction false} RecordsMore(ts: seq<Txn>, t: Txn)
    ensures Records(ts + [t]) == Records(ts) + t.records
  {
    if ts == [] {
      assert ts + [t] == [t] && [t][1..] == [];
    } else {
      assert (ts + [t])[1..] == ts[1..] + [t];
      RecordsMore(ts[1..], t);
      assert Records(ts + [t]) == ts[0].records + (Records(ts[1..]) + t.records);
    }
  }

  // The scan.

  datatype State = State(inTxn: bool, id: u64, current: seq<Record>) {
    function Next(r: Record): State {
      if r.TxnBegin? then State(true, r.txn, [])
      else if r.TxnCommit? then State(false, id, [])
      else if inTxn && !r.Checkpoint? then State(inTxn, id, current + [r])
      else this
    }

    /** What the record adds to the result: a commit that fits adds its transaction. */
    function Emits(f: Format, r: Record): seq<Record> {
      if r.TxnCommit? && inTxn && r.txn == id && f.sum(PutAll(f, current)) == r.crc then current else []
    }
  }

  const Start: State := State(false, 0, [])

  /** The outcome of a scan; reading past the end of the buffer throws. */
  datatype Outcome = Done(records: seq<Record>) | PastEnd

  /** The parsing loop of `recover` from `off` on. */
  function Scan(f: Format, b: seq<byte>, off: nat, s: State, acc: seq<Record>): Outcome
    requires Progress(f)
    decreases |b| - off
  {
    if |b| < off + 9 then Done(acc)
    else
      var d := f.get(b, off);
      if d.None? then PastEnd
      else if PadAt(d) then
        var boundary := (off / Block + 1) * Block;
        if |b| <= boundary then Done(acc) else Scan(f, b, boundary, s, acc)
      else Scan(f, b, d.value.1, s.Next(d.value.0), acc + s.Emits(f, d.value.0))
  }

  /** The loop itself. */
  method Parse(f: Format, b: seq<byte>) returns (r: Outcome)
    requires Progress(f)
    ensures r == Scan(f, b, 0, Start, [])
  {
    var result: seq<Record> := [];
    var current: seq<Record> := [];
    var inTxn: bool, id: u64 := false, 0;
    var p: nat := 0;
    while p < |b|
      invariant Scan(f, b, 0, Start, []) == Scan(f, b, p, State(inTxn, id, current), result)
      decreases |b| - p
    {
      if |b| - p < 9 {
        break;
      }
      var before := p;
      var d := f.get(b, p);
      if d.None? {
        return PastEnd;
      }
      var rec := d.value.0;
      p := d.value.1;
      if rec.Other? && rec.op == 0 {
        var boundary := (before / Block + 1) * Block;
        if boundary >= |b| {
          return Done(result);
        }
        p := boundary;
        continue;
      }
      ghost var s, was := State(inTxn, id, current), result;
      if rec.TxnBegin? {
        inTxn, id, current := true, rec.txn, [];
      } else if rec.TxnCommit? {
        if inTxn && rec.txn == id {
          var expected := f.sum(PutAll(f, current));
          if expected == rec.crc {
            result := result + current;
          }
        }
        inTxn, current := false, [];
      } else if inTxn && !rec.Checkpoint? {
        current := current + [rec];
      }
      assert State(inTxn, id, current) == s.Next(rec);
      assert result == was + s.Emits(f, rec);
    }
    r := Done(result);
  }

  // Scanning what was written.

  /** One step over a record that stands at `off`. */
  lemma ScanRecord(f: Format, b: seq<byte>, off: nat, s: State, acc: seq<Record>, r: Record)
    requires Faithful(f) && At(b, off, f.put(r)) && !r.Other?
    ensures Scan(f, b, off, s, acc) == Scan(f, b, off + |f.put(r)|, s.Next(r), acc + s.Emits(f, r))
  {
    assert ReadsBackAt(f, b, off, r);
  }

  /** The data records of a transaction collect in the state. */
  lemma {:induction false} ScanRecords(f: Format, b: seq<byte>, off: nat, s: State, acc: seq<Record>, rs: seq<Record>)
    requires Faithful(f) && At(b, off, PutAll(f, rs)) && s.inTxn && forall i :: 0 <= i < |rs| ==> rs[i].IsData()
    ensures Scan(f, b, off, s, acc) == Scan(f, b, off + |PutAll(f, rs)|, State(true, s.id, s.current + rs), acc)
    decreases |rs|
  {
    if rs == [] {
      assert s.current + rs == s.current;
    } else {
      Parts(b, off, f.put(rs[0]), PutAll(f, rs[1..]));
      ScanRecord(f, b, off, s, acc, rs[0]);
      assert acc + [] == acc;
      ScanRecords(f, b, off + |f.put(rs[0])|, s.Next(rs[0]), acc, rs[1..]);
      assert s.current + [rs[0]] + rs[1..] == s.current + rs;
    }
  }

  /** Zero padding, even shorter than a record header, is skipped to the block boundary. */
  lemma ScanPadding(f: Format, b: seq<byte>, off: nat, end: nat, s: State, acc: seq<Record>)
    requires Faithful(f) && off <= end <= |b| && end < off + Block && end % Block == 0
    requires |b| % Block == 0 && forall i :: off <= i < end ==> b[i] == 0
    ensures Scan(f, b, off, s, acc) == Scan(f, b, end, s, acc)
  {
    if off < end && off + 9 <= |b| {
      assert b[off] == 0 && PadAt(f.get(b, off));
      assert (off / Block + 1) * Block == end;
    }
  }

  /** Where the parts of a transaction stand. */
  lemma FrameParts(f: Format, b: seq<byte>, off: nat, t: Txn, number: u64, crc: u32) returns (o1: nat, o2: nat, o3: nat)
    requires At(b, off, FrameWith(f, t, number, crc))
    ensures At(b, off, f.put(TxnBegin(t.id))) && o1 == off + |f.put(TxnBegin(t.id))|
    ensures if t.checkpoint then At(b, o1, f.put(Checkpoint(t.id))) && o2 == o1 + |f.put(Checkpoint(t.id))| else o2 == o1
    ensures At(b, o2, PutAll(f, t.records)) && o3 == o2 + |PutAll(f, t.records)|
    ensures At(b, o3, f.put(TxnCommit(number, crc)))
    ensures off + |FrameWith(f, t, number, crc)| == o3 + |f.put(TxnCommit(number, crc))|
  {
    var begin := f.put(TxnBegin(t.id));
    var mid := if t.checkpoint then f.put(Checkpoint(t.id)) else [];
    var body := PutAll(f, t.records);
    var commit := f.put(TxnCommit(number, crc));
    Parts(b, off, begin, mid + (body + commit));
    o1 := off + |begin|;
    Parts(b, o1, mid, body + commit);
    o2 := o1 + |mid|;
    Parts(b, o2, body, commit);
    o3 := o2 + |body|;
  }

  /** The opening of a transaction. */
  lemma ScanOpening(f: Format, b: seq<byte>, off: nat, s: State, acc: seq<Record>, t: Txn, o1: nat, o2: nat)
    requires Faithful(f) && At(b, off, f.put(TxnBegin(t.id))) && o1 == off + |f.put(TxnBegin(t.id))|
    requires if t.checkpoint then At(b, o1, f.put(Checkpoint(t.id))) && o2 == o1 + |f.put(Checkpoint(t.id))| else o2 == o1
    ensures Scan(f, b, off, s, acc) == Scan(f, b, o2, State(true, t.id, []), acc)
  {
    assert acc + [] == acc;
    ScanRecord(f, b, off, s, acc, TxnBegin(t.id));
    if t.checkpoint {
      ScanRecord(f, b, o1, State(true, t.id, []), acc, Checkpoint(t.id));
    }
  }

  /** The records and the commit of a transaction. */
  lemma ScanClosing(f: Format, b: seq<byte>, o2: nat, o3: nat, acc: seq<Record>, t: Txn, number: u64, crc: u32)
    requires Faithful(f) && WellFormed(t)
    requires At(b, o2, PutAll(f, t.records)) && o3 == o2 + |PutAll(f, t.records)| && At(b, o3, f.put(TxnCommit(number, crc)))
    ensures Scan(f, b, o2, State(true, t.id, []), acc)
         == Scan(f, b, o3 + |f.put(TxnCommit(number, crc))|, State(false, t.id, []), acc + Yield(f, t, number, crc))
  {
    assert [] + t.records == t.records;
    ScanRecords(f, b, o2, State(true, t.id, []), acc, t.records);
    ScanCommit(f, b, o3, acc, t, number, crc);
  }

  lemma ScanCommit(f: Format, b: seq<byte>, off: nat, acc: seq<Record>, t: Txn, number: u64, crc: u32)
    requires Faithful(f) && At(b, off, f.put(TxnCommit(number, crc)))
    ensures Scan(f, b, off, State(true, t.id, t.records), acc)
         == Scan(f, b, off + |f.put(TxnCommit(number, crc))|, State(false, t.id, []), acc + Yield(f, t, number, crc))
  {
    ScanRecord(f, b, off, State(true, t.id, t.records), acc, TxnCommit(number, crc));
  }

  /** What the commit record makes recovery return. */
  function Yield(f: Format, t: Txn, number: u64, crc: u32): seq<Record> {
    if Closes(f, t, number, crc) then t.records else []
  }

  /** One transaction gives back its records if its commit record belongs to it, and nothing otherwise. */
  lemma ScanTxn(f: Format, b: seq<byte>, off: nat, s: State, acc: seq<Record>, t: Txn, number: u64, crc: u32)
    requires Faithful(f) && At(b, off, FrameWith(f, t, number, crc)) && WellFormed(t)
    ensures Scan(f, b, off, s, acc)
         == Scan(f, b, off + |FrameWith(f, t, number, crc)|, State(false, t.id, []), acc + Yield(f, t, number, crc))
  {
    var o1, o2, o3 := FrameParts(f, b, off, t, number, crc);
    ScanOpening(f, b, off, s, acc, t, o1, o2);
    ScanClosing(f, b, o2, o3, acc, t, number, crc);
  }

  /** A transaction and its padding. */
  lemma ScanPadded(f: Format, b: seq<byte>, off: nat, s: State, acc: seq<Record>, t: Txn, number: u64, crc: u32)
    requires Faithful(f) && At(b, off, Pad(FrameWith(f, t, number, crc))) && WellFormed(t)
    requires off % Block == 0 && |b| % Block == 0
    ensures Scan(f, b, off, s, acc)
         == Scan(f, b, off + |Pad(FrameWith(f, t, number, crc))|, State(false, t.id, []), acc + Yield(f, t, number, crc))
  {
    var frame := FrameWith(f, t, number, crc);
    FrameNonempty(f, t, number, crc);
    PaddedParts(b, off, frame);
    ScanTxn(f, b, off, s, acc, t, number, crc);
    ScanPadding(f, b, off + |frame|, off + |Pad(frame)|, State(false, t.id, []), acc + Yield(f, t, number, crc));
  }

  lemma FrameNonempty(f: Format, t: Txn, number: u64, crc: u32)
    requires HasHeaders(f)
    ensures FrameWith(f, t, number, crc) != []
  {
    assert 9 <= |f.put(TxnBegin(t.id))|;
  }

  /** Padded bytes: the bytes, and zeros up to a block boundary. */
  lemma PaddedParts(b: seq<byte>, off: nat, x: seq<byte>)
    requires At(b, off, Pad(x)) && off % Block == 0 && x != []
    ensures At(b, off, x) && off + |x| <= off + |Pad(x)| <= |b| && off + |Pad(x)| < off + |x| + Block
    ensures (off + |Pad(x)|) % Block == 0 && forall i :: off + |x| <= i < off + |Pad(x)| ==> b[i] == 0
  {
    var padded := Pad(x);
    assert padded == x + padded[|x|..];
    Parts(b, off, x, padded[|x|..]);
    forall i | off + |x| <= i < off + |padded| ensures b[i] == 0 {
      assert b[i] == b[off..off + |padded|][i - off];
    }
    BlockSum(off, |padded|);
  }

  /** A transaction as it stands on the device, with whatever commit record closes it. */
  datatype Stored = Stored(t: Txn, number: u64, crc: u32) {
    function Put(f: Format): seq<byte> {
      Pad(FrameWith(f, t, number, crc))
    }
  }

  function StoredImage(f: Format, xs: seq<Stored>): (r: seq<byte>)
    ensures |r| % Block == 0
  {
    if xs == [] then []
    else
      var first, rest := xs[0].Put(f), StoredImage(f, xs[1..]);
      BlockSum(|first|, |rest|);
      first + rest
  }

  /** The records of those transactions whose commit record is their own. */
  function Yields(f: Format, xs: seq<Stored>): seq<Record> {
    if xs == [] then [] else Yield(f, xs[0].t, xs[0].number, xs[0].crc) + Yields(f, xs[1..])
  }

  ghost predicate AllStoredWell(xs: seq<Stored>) {
    forall i :: 0 <= i < |xs| ==> WellFormed(xs[i].t)
  }

  /** Recovering an image returns, in order, the records of exactly the transactions whose commit record is their own. */
  lemma {:induction false} ScanStored(f: Format, b: seq<byte>, off: nat, s: State, acc: seq<Record>, xs: seq<Stored>)
    requires Faithful(f) && At(b, off, StoredImage(f, xs)) && off + |StoredImage(f, xs)| == |b| && off % Block == 0
    requires AllStoredWell(xs)
    ensures Scan(f, b, off, s, acc) == Done(acc + Yields(f, xs))
    decreases |xs|
  {
    if xs == [] {
      assert acc + [] == acc;
    } else {
      WellRest(xs);
      var x := xs[0];
      var next := ScanFirst(f, b, off, s, acc, xs);
      ScanStored(f, b, next, State(false, x.t.id, []), acc + Yield(f, x.t, x.number, x.crc), xs[1..]);
      YieldsSplit(f, acc, xs);
    }
  }

  lemma YieldsSplit(f: Format, acc: seq<Record>, xs: seq<Stored>)
    requires xs != []
    ensures acc + Yields(f, xs) == (acc + Yield(f, xs[0].t, xs[0].number, xs[0].crc)) + Yields(f, xs[1..])
  {
  }

  lemma WellRest(xs: seq<Stored>)
    requires AllStoredWell(xs) && xs != []
    ensures WellFormed(xs[0].t) && AllStoredWell(xs[1..])
  {
  }

  lemma ScanFirst(f: Format, b: seq<byte>, off: nat, s: State, acc: seq<Record>, xs: seq<Stored>) returns (next: nat)
    requires Faithful(f) && At(b, off, StoredImage(f, xs)) && off + |StoredImage(f, xs)| == |b| && off % Block == 0
    requires xs != [] && WellFormed(xs[0].t)
    ensures At(b, next, StoredImage(f, xs[1..])) && next + |StoredImage(f, xs[1..])| == |b| && next % Block == 0
    ensures Scan(f, b, off, s, acc)
         == Scan(f, b, next, State(false, xs[0].t.id, []), acc + Yield(f, xs[0].t, xs[0].number, xs[0].crc))
  {
    next := ImageParts(f, b, off, xs);
    ScanPadded(f, b, off, s, acc, xs[0].t, xs[0].number, xs[0].crc);
  }

  lemma ImageParts(f: Format, b: seq<byte>, off: nat, xs: seq<Stored>) returns (next: nat)
    requires xs != [] && At(b, off, StoredImage(f, xs)) && off + |StoredImage(f, xs)| == |b| && off % Block == 0
    ensures next == off + |xs[0].Put(f)| && At(b, off, xs[0].Put(f))
    ensures At(b, next, StoredImage(f, xs[1..])) && next + |StoredImage(f, xs[1..])| == |b|
    ensures next % Block == 0 && |b| % Block == 0
  {
    next := off + |xs[0].Put(f)|;
    BlockParts(b, off, xs[0].Put(f), StoredImage(f, xs[1..]));
  }

  lemma BlockParts(b: seq<byte>, off: nat, x: seq<byte>, y: seq<byte>)
    requires At(b, off, x + y) && off + |x + y| == |b| && off % Block == 0 && |x| % Block == 0 && |y| % Block == 0
    ensures At(b, off, x) && At(b, off + |x|, y) && off + |x| + |y| == |b|
    ensures (off + |x|) % Block == 0 && |b| % Block == 0
  {
    Parts(b, off, x, y);
    BlockSum(off, |x|);
    BlockSum(off + |x|, |y|);
  }

  /** Committed transactions, each with its own commit record. */
  function Own(f: Format, ts: seq<Txn>): (xs: seq<Stored>)
    ensures |xs| == |ts|
    ensures forall i :: 0 <= i < |ts| ==> xs[i] == Stored(ts[i], ts[i].id, f.sum(PutAll(f, ts[i].records)))
  {
    if ts == [] then [] else [Stored(ts[0], ts[0].id, f.sum(PutAll(f, ts[0].records)))] + Own(f, ts[1..])
  }

  lemma {:induction false} OwnImage(f: Format, ts: seq<Txn>)
    ensures StoredImage(f, Own(f, ts)) == Image(f, ts) && Yields(f, Own(f, ts)) == Records(ts)
  {
    if ts != [] {
      OwnImage(f, ts[1..]);
      assert Own(f, ts)[1..] == Own(f, ts[1..]);
    }
  }

  /** Printing any committed transactions and parsing them back. */
  lemma ImageRoundTrip(f: Format, ts: seq<Txn>)
    requires Faithful(f) && AllWellFormed(ts)
    ensures Scan(f, Image(f, ts), 0, Start, []) == Done(Records(ts))
  {
    OwnImage(f, ts);
    ScanStored(f, Image(f, ts), 0, Start, [], Own(f, ts));
    assert [] + Records(ts) == Records(ts);
  }
}
