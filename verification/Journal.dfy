/**
 The tiering journal on its device (`btier/journal.cc`): committing, taking a
 checkpoint, trimming, crashing in the middle of either write, and recovering.
 The write head stays below the end of the data area.
 */
module Journal {
  import opened Bytes
  import opened JournalCodec
  import opened JournalScan

  datatype SuperBlock = SuperBlock(checkpointOffset: nat, checkpointSeqno: nat, writeOffset: nat)

  /** What survives a crash. */
  datatype Disk = Disk(sb: SuperBlock, data: seq<byte>)

  /** Replace the bytes from `off` on. */
  function Overwrite(data: seq<byte>, off: nat, x: seq<byte>): (r: seq<byte>)
    requires off + |x| <= |data|
    ensures |r| == |data| && r[..off] == data[..off] && r[off..off + |x|] == x && r[off + |x|..] == data[off + |x|..]
  {
    data[..off] + x + data[off + |x|..]
  }

  /** The disk holds the transactions `ts` between the checkpoint and the write head. */
  ghost predicate Holds(f: Format, d: Disk, ts: seq<Txn>) {
    && d.sb.checkpointOffset <= d.sb.writeOffset <= |d.data| && d.sb.checkpointOffset % Block == 0
    && d.data[d.sb.checkpointOffset..d.sb.writeOffset] == Image(f, ts) && AllWellFormed(ts)
  }

  /** `recover`, on the disk's contents. */
  function Recovered(f: Format, d: Disk): Outcome
    requires Progress(f) && d.sb.checkpointOffset <= d.sb.writeOffset <= |d.data|
  {
    Scan(f, d.data[d.sb.checkpointOffset..d.sb.writeOffset], 0, Start, [])
  }

  lemma RecoveredIsHeld(f: Format, d: Disk, ts: seq<Txn>)
    requires Faithful(f) && Holds(f, d, ts)
    ensures Recovered(f, d) == Done(Records(ts))
  {
    ImageRoundTrip(f, ts);
  }

  // The events of a run.

  datatype Event =
    | Commit(t: Txn)
    | TakeCheckpoint(t: Txn)
    | Trim
    | CrashInCommit(t: Txn, torn: seq<byte>)
    | CrashInCheckpoint(t: Txn, torn: seq<byte>)

  /** The write fits below the end of the data area. */
  ghost predicate Fits(f: Format, d: Disk, t: Txn) {
    d.sb.writeOffset + |Pad(Frame(f, t))| < |d.data|
  }

  ghost predicate Legal(f: Format, d: Disk, e: Event) {
    match e
    case Commit(t) => Fits(f, d, t) && WellFormed(t)
    case TakeCheckpoint(t) => Fits(f, d, t) && WellFormed(t)
    case Trim => true
    case CrashInCommit(t, torn) => Fits(f, d, t) && |torn| == |Pad(Frame(f, t))|
    case CrashInCheckpoint(t, torn) => Fits(f, d, t) && |torn| == |Pad(Frame(f, t))|
  }

  /**
   The disk after an event.  The superblock is written after the data has reached
   the disk, so a crash before that leaves the old superblock and any mixture of
   old, new and foreign bytes where the data was going; a crash after it is the
   completed event.
   */
  ghost function After(f: Format, d: Disk, e: Event): Disk
    requires Legal(f, d, e)
  {
    match e
    case Commit(t) =>
      var x := Pad(Frame(f, t));
      Disk(d.sb.(writeOffset := d.sb.writeOffset + |x|), Overwrite(d.data, d.sb.writeOffset, x))
    case TakeCheckpoint(t) =>
      var x := Pad(Frame(f, t));
      Disk(SuperBlock(d.sb.writeOffset, d.sb.checkpointSeqno + 1, d.sb.writeOffset + |x|),
           Overwrite(d.data, d.sb.writeOffset, x))
    case Trim => d.(sb := d.sb.(checkpointOffset := d.sb.writeOffset))
    case CrashInCommit(_, torn) => d.(data := Overwrite(d.data, d.sb.writeOffset, torn))
    case CrashInCheckpoint(_, torn) => d.(data := Overwrite(d.data, d.sb.writeOffset, torn))
  }

  /** The transactions a recovery should see after an event. */
  function Expected(ts: seq<Txn>, e: Event): seq<Txn> {
    match e
    case Commit(t) => ts + [t]
    case TakeCheckpoint(t) => [t]
    case Trim => []
    case CrashInCommit(_, _) => ts
    case CrashInCheckpoint(_, _) => ts
  }

  lemma HoldsBlocks(f: Format, d: Disk, ts: seq<Txn>)
    requires Holds(f, d, ts)
    ensures d.sb.writeOffset % Block == 0
  {
    BlockSum(d.sb.checkpointOffset, |Image(f, ts)|);
  }

  lemma CommitHolds(f: Format, d: Disk, ts: seq<Txn>, t: Txn)
    requires Holds(f, d, ts) && Fits(f, d, t) && WellFormed(t)
    ensures Holds(f, After(f, d, Commit(t)), ts + [t])
  {
    var x := Pad(Frame(f, t));
    var d' := After(f, d, Commit(t));
    ImageMore(f, ts, t);
    Written(d.data, d.sb.checkpointOffset, d.sb.writeOffset, x);
  }

  /** What stands before the write head stays, and the new bytes follow it. */
  lemma Written(data: seq<byte>, lo: nat, off: nat, x: seq<byte>)
    requires lo <= off && off + |x| <= |data|
    ensures Overwrite(data, off, x)[lo..off] == data[lo..off]
    ensures Overwrite(data, off, x)[lo..off + |x|] == data[lo..off] + x
    ensures Overwrite(data, off, x)[off..off + |x|] == x
  {
    var r := Overwrite(data, off, x);
    assert r[lo..off] == r[..off][lo..] == data[..off][lo..] == data[lo..off];
    assert r[lo..off + |x|] == r[lo..off] + r[off..off + |x|];
  }

  lemma CheckpointHolds(f: Format, d: Disk, ts: seq<Txn>, t: Txn)
    requires Holds(f, d, ts) && Fits(f, d, t) && WellFormed(t)
    ensures Holds(f, After(f, d, TakeCheckpoint(t)), [t])
  {
    HoldsBlocks(f, d, ts);
    Written(d.data, d.sb.checkpointOffset, d.sb.writeOffset, Pad(Frame(f, t)));
    ImageMore(f, [], t);
    assert [] + [t] == [t] && Image(f, []) + Pad(Frame(f, t)) == Pad(Frame(f, t));
  }

  lemma TornHolds(f: Format, d: Disk, ts: seq<Txn>, torn: seq<byte>)
    requires Holds(f, d, ts) && d.sb.writeOffset + |torn| <= |d.data|
    ensures Holds(f, d.(data := Overwrite(d.data, d.sb.writeOffset, torn)), ts)
  {
    Written(d.data, d.sb.checkpointOffset, d.sb.writeOffset, torn);
  }

  /** Every event, crash points included, keeps the disk and the expectation together. */
  lemma EventHolds(f: Format, d: Disk, ts: seq<Txn>, e: Event)
    requires Holds(f, d, ts) && Legal(f, d, e)
    ensures Holds(f, After(f, d, e), Expected(ts, e))
  {
    match e
    case Commit(t) => CommitHolds(f, d, ts, t);
    case TakeCheckpoint(t) => CheckpointHolds(f, d, ts, t);
    case Trim => HoldsBlocks(f, d, ts);
    case CrashInCommit(_, torn) => TornHolds(f, d, ts, torn);
    case CrashInCheckpoint(_, torn) => TornHolds(f, d, ts, torn);
  }

  // Whole runs.

  ghost predicate LegalRun(f: Format, d: Disk, es: seq<Event>)
    decreases |es|
  {
    es == [] || (Legal(f, d, es[0]) && LegalRun(f, After(f, d, es[0]), es[1..]))
  }

  ghost function RunFrom(f: Format, d: Disk, es: seq<Event>): Disk
    requires LegalRun(f, d, es)
    decreases |es|
  {
    if es == [] then d else RunFrom(f, After(f, d, es[0]), es[1..])
  }

  function ExpectedRun(ts: seq<Txn>, es: seq<Event>): seq<Txn>
    decreases |es|
  {
    if es == [] then ts else ExpectedRun(Expected(ts, es[0]), es[1..])
  }

  lemma {:induction false} RunHolds(f: Format, d: Disk, ts: seq<Txn>, es: seq<Event>)
    requires Holds(f, d, ts) && LegalRun(f, d, es)
    ensures Holds(f, RunFrom(f, d, es), ExpectedRun(ts, es))
    decreases |es|
  {
    if es != [] {
      EventHolds(f, d, ts, es[0]);
      RunHolds(f, After(f, d, es[0]), Expected(ts, es[0]), es[1..]);
    }
  }

  /**
   After any run from a fresh journal, with crashes anywhere, recovery returns the
   records of the last checkpoint and of every later committed transaction, in
   commit order; a transaction whose commit or checkpoint crashed leaves no trace.
   */
  lemma RecoveryIsExact(f: Format, size: nat, es: seq<Event>)
    requires Faithful(f) && LegalRun(f, Fresh(size), es)
    ensures Holds(f, RunFrom(f, Fresh(size), es), ExpectedRun([], es))
    ensures Recovered(f, RunFrom(f, Fresh(size), es)) == Done(Records(ExpectedRun([], es)))
  {
    RunHolds(f, Fresh(size), [], es);
    RecoveredIsHeld(f, RunFrom(f, Fresh(size), es), ExpectedRun([], es));
  }

  /** The same for the journal's own record format and checksum. */
  lemma JournalRecoveryIsExact(f: Format, size: nat, es: seq<Event>)
    requires f == JournalFormat() && LegalRun(f, Fresh(size), es)
    ensures Holds(f, RunFrom(f, Fresh(size), es), ExpectedRun([], es)) && Progress(f)
    ensures Recovered(f, RunFrom(f, Fresh(size), es)) == Done(Records(ExpectedRun([], es)))
  {
    JournalFormatIsFaithful();
    RecoveryIsExact(f, size, es);
  }

  /** The first initialisation. */
  function Fresh(size: nat): Disk {
    Disk(SuperBlock(0, 0, 0), Zeros(size))
  }

  /**
   A crash during a commit or a checkpoint: the recovered list is the old one
   while the old superblock stands, and the complete new one after it is replaced.
   */
  lemma CrashIsAtomic(f: Format, d: Disk, ts: seq<Txn>, t: Txn, torn: seq<byte>)
    requires Faithful(f) && Holds(f, d, ts) && Fits(f, d, t) && WellFormed(t) && |torn| == |Pad(Frame(f, t))|
    ensures Holds(f, After(f, d, CrashInCommit(t, torn)), ts) && Holds(f, After(f, d, Commit(t)), ts + [t])
    ensures Recovered(f, After(f, d, CrashInCommit(t, torn))) == Done(Records(ts))
    ensures Recovered(f, After(f, d, Commit(t))) == Done(Records(ts) + t.records)
    ensures Holds(f, After(f, d, CrashInCheckpoint(t, torn)), ts) && Holds(f, After(f, d, TakeCheckpoint(t)), [t])
    ensures Recovered(f, After(f, d, CrashInCheckpoint(t, torn))) == Done(Records(ts))
    ensures Recovered(f, After(f, d, TakeCheckpoint(t))) == Done(t.records)
  {
    EventHolds(f, d, ts, CrashInCheckpoint(t, torn));
    RecoveredIsHeld(f, After(f, d, CrashInCheckpoint(t, torn)), ts);
    EventHolds(f, d, ts, CrashInCommit(t, torn));
    RecoveredIsHeld(f, After(f, d, CrashInCommit(t, torn)), ts);
    EventHolds(f, d, ts, Commit(t));
    RecoveredIsHeld(f, After(f, d, Commit(t)), ts + [t]);
    RecordsMore(ts, t);
    EventHolds(f, d, ts, TakeCheckpoint(t));
    RecoveredIsHeld(f, After(f, d, TakeCheckpoint(t)), [t]);
    RecordsMore([], t);
    assert [] + [t] == [t] && [] + t.records == t.records;
  }
}
