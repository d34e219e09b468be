/** The journal object: its buffers, its device and its in-memory superblock (`btier/journal.cc`). */
module JournalObject {
  import opened Bytes
  import opened JournalCodec
  import opened JournalScan
  import opened Journal

  /** A transaction being built: its records, and their bytes so far. */
  datatype TxnBuffer = TxnBuffer(records: seq<Record>, serialized: seq<byte>)

  ghost predicate Consistent(f: Format, id: u64, tb: TxnBuffer) {
    && tb.serialized == PutAll(f, tb.records) && WellFormed(Txn(id, tb.records, false))
    && forall i :: 0 <= i < |tb.records| ==> tb.records[i].txn == id
  }

  class JournalStore {
    const f: Format
    var disk: Disk
    var superblock: SuperBlock
    var writeOffset: nat
    var nextTxnId: u64
    var active: map<u64, TxnBuffer>
    ghost var committed: seq<Txn>

    /** Memory agrees with the device, and the device holds the committed transactions. */
    ghost predicate Valid()
      reads this
    {
      && Faithful(f) && Holds(f, disk, committed)
      && superblock == disk.sb && writeOffset == disk.sb.writeOffset
      && forall id :: id in active ==> Consistent(f, id, active[id])
    }

    /** Open the journal on a device that holds the transactions `ts`. */
    constructor (f: Format, disk: Disk, ghost ts: seq<Txn>)
      requires Faithful(f) && Holds(f, disk, ts)
      ensures Valid() && this.f == f && this.disk == disk && committed == ts && active == map[] && nextTxnId == 1
    {
      this.f, this.disk, superblock, writeOffset := f, disk, disk.sb, disk.sb.writeOffset;
      nextTxnId, active, committed := 1, map[], ts;
    }

    method BeginTxn() returns (id: u64)
      requires Valid()
      modifies `nextTxnId, `active
      ensures Valid() && id == old(nextTxnId) && nextTxnId == (id + 1) % 0x1_0000_0000_0000_0000
      ensures id in active && forall k :: k in active <==> k == id || k in old(active)
      ensures id !in old(active) ==> active == old(active)[id := TxnBuffer([], [])]
      ensures id in old(active) ==> active == old(active)
    {
      id := nextTxnId;
      nextTxnId := (nextTxnId + 1) % 0x1_0000_0000_0000_0000;
      if id !in active {
        active := active[id := TxnBuffer([], [])];
      }
    }

    /** The record joins its transaction, under the transaction's own number. */
    method Append(id: u64, rec: Record) returns (ok: bool)
      requires Valid() && rec.IsData()
      modifies `active
      ensures Valid() && (ok <==> id in old(active))
      ensures ok ==> active.Keys == old(active).Keys && active[id].records == old(active)[id].records + [rec.WithTxn(id)]
      ensures forall k :: k in old(active) && (!ok || k != id) ==> k in active && active[k] == old(active)[k]
      ensures !ok ==> active == old(active)
    {
      if id !in active {
        return false;
      }
      var r := rec.WithTxn(id);
      var tb := active[id];
      ConsistentMore(f, id, tb, r);
      active := active[id := TxnBuffer(tb.records + [r], tb.serialized + f.put(r))];
      ok := true;
    }

    /**
     `pad_and_write`: the padded bytes reach the device, at the write head or, if
     they do not fit there, at its start; the superblock does not change.
     */
    method PadAndWrite(b: seq<byte>)
      requires |Pad(b)| <= |disk.data|
      modifies `disk, `writeOffset
      ensures var start := if old(writeOffset) + |Pad(b)| > |old(disk.data)| then 0 else old(writeOffset);
              && disk == old(disk).(data := Overwrite(old(disk.data), start, Pad(b)))
              && writeOffset == if start + |Pad(b)| >= |old(disk.data)| then 0 else start + |Pad(b)|
    {
      var padded := PaddedLength(|b|);
      var x := b;
      if padded > |b| {
        x := b + Zeros(padded - |b|);
      }
      assert x == Pad(b);
      if writeOffset + padded > |disk.data| {
        writeOffset := 0;
      }
      disk := disk.(data := Overwrite(disk.data, writeOffset, x));
      writeOffset := writeOffset + padded;
      if writeOffset >= |disk.data| {
        writeOffset := 0;
      }
    }

    /** `commit_txn`. */
    method CommitTxn(id: u64) returns (ok: bool)
      requires Valid() && (id in active ==> Fits(f, disk, Txn(id, active[id].records, false)))
      modifies `disk, `superblock, `writeOffset, `active, `committed
      ensures Valid() && (ok <==> id in old(active)) && active == old(active) - {id}
      ensures !ok ==> disk == old(disk) && committed == old(committed)
      ensures ok ==>
                var t := Txn(id, old(active)[id].records, false);
                && committed == old(committed) + [t]
                && superblock == old(superblock).(writeOffset := old(writeOffset) + |Pad(Frame(f, t))|)
                && disk.data == Overwrite(old(disk.data), old(writeOffset), Pad(Frame(f, t)))
    {
      if id !in active {
        return false;
      }
      var tb := active[id];
      ghost var t := Txn(id, tb.records, false);
      var crc := f.sum(tb.serialized);
      var b := f.put(TxnBegin(id)) + tb.serialized + f.put(TxnCommit(id, crc));
      FrameOfCommit(f, t, b);
      active := active - {id};
      EventHolds(f, disk, committed, Commit(t));
      PadAndWrite(b);
      superblock := superblock.(writeOffset := writeOffset);
      disk := disk.(sb := superblock);
      committed := committed + [t];
      ok := true;
    }

    /** `checkpoint`: the full state becomes the only transaction that recovery sees. */
    method TakeCheckpoint(state: seq<Record>)
      requires Valid() && WellFormed(Txn(0, state, true)) && Fits(f, disk, Txn(0, state, true))
      modifies `disk, `superblock, `writeOffset, `committed
      ensures Valid() && committed == [Txn(0, state, true)]
      ensures var x := Pad(Frame(f, Txn(0, state, true)));
              && superblock == SuperBlock(old(writeOffset), old(superblock.checkpointSeqno) + 1, old(writeOffset) + |x|)
              && disk.data == Overwrite(old(disk.data), old(writeOffset), x)
    {
      ghost var t := Txn(0, state, true);
      var records := PutState(state);
      var crc := f.sum(records);
      var b := f.put(TxnBegin(0)) + f.put(Checkpoint(0)) + records + f.put(TxnCommit(0, crc));
      FrameOfCheckpoint(f, t, b);
      EventHolds(f, disk, committed, Event.TakeCheckpoint(t));
      var start := writeOffset;
      PadAndWrite(b);
      superblock := SuperBlock(start, superblock.checkpointSeqno + 1, writeOffset);
      disk := disk.(sb := superblock);
      committed := [t];
    }

    method PutState(state: seq<Record>) returns (b: seq<byte>)
      ensures b == PutAll(f, state)
    {
      b := [];
      var i := 0;
      while i < |state|
        invariant 0 <= i <= |state| && b == PutAll(f, state[..i])
      {
        assert state[..i + 1] == state[..i] + [state[i]];
        PutMore(f, state[..i], state[i]);
        b := b + f.put(state[i]);
        i := i + 1;
      }
      assert state[..i] == state;
    }

    /** `trim`: recovery starts at the write head from now on. */
    method TrimLog()
      requires Valid()
      modifies `disk, `superblock, `committed
      ensures Valid() && committed == []
      ensures superblock == old(superblock).(checkpointOffset := old(writeOffset)) && disk.data == old(disk.data)
    {
      EventHolds(f, disk, committed, Trim);
      superblock := superblock.(checkpointOffset := writeOffset, writeOffset := writeOffset);
      disk := disk.(sb := superblock);
      committed := [];
    }

    /** `recover`: read the range block by block and parse it. */
    method Recover() returns (r: Outcome)
      requires Valid()
      modifies `superblock, `writeOffset
      ensures Valid() && r == Done(Records(committed))
    {
      superblock := disk.sb;
      writeOffset := superblock.writeOffset;
      RecoveredIsHeld(f, disk, committed);
      var data := disk.data;
      if superblock.checkpointOffset == writeOffset {
        EmptyScan(f);
        assert data[writeOffset..writeOffset] == [];
        if writeOffset != 0 || |data| < Block || forall i :: 0 <= i < Block ==> data[i] == 0 {
          return Done([]);
        }
      }
      var full := ReadRange(data, superblock.checkpointOffset, writeOffset);
      r := Parse(f, full);
    }
  }

  lemma ConsistentMore(f: Format, id: u64, tb: TxnBuffer, r: Record)
    requires Consistent(f, id, tb) && r.IsData() && r.txn == id
    ensures Consistent(f, id, TxnBuffer(tb.records + [r], tb.serialized + f.put(r)))
  {
    PutMore(f, tb.records, r);
  }

  lemma EmptyScan(f: Format)
    requires Progress(f)
    ensures Scan(f, [], 0, Start, []) == Done([])
  {
  }

  /** The bytes from `start` to `end`, around the end of the data area if `end` comes first. */
  function Around(data: seq<byte>, start: nat, end: nat): seq<byte>
    requires start <= |data| && end <= |data|
  {
    if start <= end then data[start..end] else data[start..] + data[..end]
  }

  function AroundLength(size: nat, start: nat, end: nat): nat
    requires start <= size && end <= size
  {
    if start <= end then end - start else size - start + end
  }

  /** The read loop of `recover`, in chunks of at most one block, wrapping at the end of the data area. */
  method ReadRange(data: seq<byte>, start: nat, end: nat) returns (full: seq<byte>)
    requires start <= |data| && end <= |data| && (end < start ==> start < |data|)
    ensures full == Around(data, start, end)
  {
    full := [];
    var remaining, pos: nat := AroundLength(|data|, start, end), start;
    assert [] + Around(data, start, end) == Around(data, start, end);
    while remaining > 0
      invariant pos <= |data| && (remaining > 0 ==> pos < |data| && remaining == AroundLength(|data|, pos, end))
      invariant full + (if remaining > 0 then Around(data, pos, end) else []) == Around(data, start, end)
    {
      var n := if Block < remaining then Block else remaining;
      if pos + n > |data| {
        n := |data| - pos;
      }
      AroundStep(data, pos, end, n);
      ghost var left := Around(data, pos, end)[n..];
      Regroup(full, data[pos..pos + n], left);
      full := full + data[pos..pos + n];
      remaining := remaining - n;
      pos := pos + n;
      if pos >= |data| {
        pos := 0;
      }
    }
  }

  /** One chunk, and what is left after it. */
  lemma AroundStep(data: seq<byte>, pos: nat, end: nat, n: nat)
    requires pos < |data| && end <= |data| && 0 < n && pos + n <= |data| && n <= AroundLength(|data|, pos, end)
    ensures |Around(data, pos, end)| == AroundLength(|data|, pos, end)
    ensures Around(data, pos, end) == data[pos..pos + n] + Around(data, pos, end)[n..]
    ensures n < AroundLength(|data|, pos, end) ==>
              var next := if pos + n == |data| then 0 else pos + n;
              && Around(data, pos, end)[n..] == Around(data, next, end)
              && AroundLength(|data|, next, end) == AroundLength(|data|, pos, end) - n
    ensures n == AroundLength(|data|, pos, end) ==> Around(data, pos, end)[n..] == []
  {
    if pos <= end {
      assert Around(data, pos, end)[..n] == data[pos..pos + n];
    } else {
      WrapStep(data, pos, end, n);
    }
  }

  lemma WrapStep(data: seq<byte>, pos: nat, end: nat, n: nat)
    requires end < pos < |data| && 0 < n && pos + n <= |data|
    ensures (data[pos..] + data[..end])[..n] == data[pos..pos + n]
    ensures (data[pos..] + data[..end])[n..] == data[pos + n..] + data[..end]
  {
  }

  lemma FrameOfCommit(f: Format, t: Txn, b: seq<byte>)
    requires !t.checkpoint
    requires b == f.put(TxnBegin(t.id)) + PutAll(f, t.records) + f.put(TxnCommit(t.id, f.sum(PutAll(f, t.records))))
    ensures b == Frame(f, t)
  {
  }

  lemma FrameOfCheckpoint(f: Format, t: Txn, b: seq<byte>)
    requires t.checkpoint
    requires b == f.put(TxnBegin(t.id)) + f.put(Checkpoint(t.id)) + PutAll(f, t.records)
                  + f.put(TxnCommit(t.id, f.sum(PutAll(f, t.records))))
    ensures b == Frame(f, t)
  {
  }
}
