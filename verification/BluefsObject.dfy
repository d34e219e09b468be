/**
 The BlueFS object: its methods update the maps, the pending transaction and the
 counters in place, with the source's loops.  Each is proved to do exactly what
 the state machine says.
 */
module BluefsObject {
  import opened Options
  import opened BluefsTypes
  import opened BluefsLog
  import opened BluefsMachine
  import opened BluefsProofs
  import opened BluefsRuns
  import opened BluefsMeaning

  /**
   The loop of `truncate` over the old extents: what is kept is re-appended, what
   lies beyond `off` is collected for release.
   */
  method SplitExtents(es: seq<Extent>, off: nat) returns (kept: seq<Extent>, toFree: seq<Extent>)
    requires Positive(es)
    ensures kept == Claim([], Head(es, off)) && toFree == Tail(es, off)
    ensures off <= Total(es) ==> Total(kept) == off
    ensures forall x: nat :: x < off ==> Phys(kept, x) == Phys(es, x)
  {
    kept, toFree := [], [];
    var pos: nat, i: nat := 0, 0;
    assert es[0..] == es;
    while i < |es|
      invariant 0 <= i <= |es|
      invariant SplitFrom(kept, toFree, es[i..], Left(off, pos)) == SplitFrom([], [], es, off)
    {
      var e := es[i];
      assert es[i..][0] == e && es[i..][1..] == es[i + 1..];
      assert toFree + [] == toFree;
      if pos < off {
        var keep := if e.length < off - pos then e.length else off - pos;
        kept := Append(kept, Extent(e.bdev, e.offset, keep));
        if keep < e.length {
          toFree := toFree + [Extent(e.bdev, e.offset + keep, e.length - keep)];
        }
      } else {
        toFree := toFree + [Extent(e.bdev, e.offset, e.length)];
      }
      pos := pos + e.length;
      i := i + 1;
    }
    assert es[i..] == [];
    SplitFromIs([], [], es, off);
    KeptPhys(es, off);
  }

  /** How much of the kept length lies at or beyond logical position `pos`. */
  function Left(off: nat, pos: nat): nat {
    if pos < off then off - pos else 0
  }

  function After(e: Extent, c: nat): nat {
    if e.length < c then c - e.length else 0
  }

  function KeepStep(kept: seq<Extent>, e: Extent, c: nat): seq<Extent> {
    if c == 0 then kept else Append(kept, Extent(e.bdev, e.offset, if e.length < c then e.length else c))
  }

  function FreeStep(e: Extent, c: nat): seq<Extent> {
    if e.length <= c then [] else [Extent(e.bdev, e.offset + c, e.length - c)]
  }

  function SplitFrom(kept: seq<Extent>, free: seq<Extent>, es: seq<Extent>, c: nat): (seq<Extent>, seq<Extent>)
    decreases es
  {
    if es == [] then (kept, free)
    else SplitFrom(KeepStep(kept, es[0], c), free + FreeStep(es[0], c), es[1..], After(es[0], c))
  }

  lemma {:induction false} SplitFromIs(kept: seq<Extent>, free: seq<Extent>, es: seq<Extent>, c: nat)
    requires Positive(es)
    ensures SplitFrom(kept, free, es, c) == (Claim(kept, Head(es, c)), free + Tail(es, c))
    decreases es
  {
    if es == [] {
      assert free + Tail(es, c) == free;
    } else {
      SplitStep(kept, es, c);
      var free' := free + FreeStep(es[0], c);
      SplitFromIs(KeepStep(kept, es[0], c), free', es[1..], After(es[0], c));
      assert free' + Tail(es[1..], After(es[0], c)) == free + Tail(es, c);
    }
  }

  lemma TailAtZero(es: seq<Extent>)
    requires Positive(es)
    ensures Tail(es, 0) == es
  {
    if es != [] {
      assert es == [es[0]] + es[1..];
    }
  }

  /** One extent of the split: the part below `c` is appended, the rest is freed. */
  lemma SplitStep(kept: seq<Extent>, es: seq<Extent>, c: nat)
    requires es != [] && Positive(es)
    ensures Claim(kept, Head(es, c)) == Claim(KeepStep(kept, es[0], c), Head(es[1..], After(es[0], c)))
    ensures Tail(es, c) == FreeStep(es[0], c) + Tail(es[1..], After(es[0], c))
  {
    TailAtZero(es[1..]);
    var h := Head(es, c);
    if c == 0 {
    } else if es[0].length <= c {
      assert h[0] == es[0] && h[1..] == Head(es[1..], c - es[0].length);
    } else {
      assert h[1..] == [];
    }
  }

  lemma KeptPhys(es: seq<Extent>, off: nat)
    ensures off <= Total(es) ==> Total(Claim([], Head(es, off))) == off
    ensures forall x: nat :: x < off ==> Phys(Claim([], Head(es, off)), x) == Phys(es, x)
  {
    HeadTailTotal(es, off);
    ClaimInvariant([], Head(es, off));
    forall x: nat | x < off ensures Phys(Claim([], Head(es, off)), x) == Phys(es, x) {
      ClaimKeepsPhys([], Head(es, off), x);
      assert [] + Head(es, off) == Head(es, off);
      HeadPhys(es, off, x);
    }
  }

  /** `_replay`: the loop over transactions around the loop over their operations. */
  method Replay(log: seq<Txn>) returns (r: Replayed)
    ensures r == ReplayTxns(NoNodes, 0, log)
  {
    var n, last, t := NoNodes, 0, 0;
    while t < |log|
      invariant 0 <= t <= |log|
      invariant ReplayTxns(n, last, log[t..]) == ReplayTxns(NoNodes, 0, log)
    {
      var txn := log[t];
      assert log[t..][0] == txn && log[t..][1..] == log[t + 1..];
      if txn.number != last + 1 {
        if txn.number == last {
          return Replayed(n, last);
        }
        return Failed;
      }
      var k := 0;
      ghost var start := n;
      while k < |txn.ops|
        invariant 0 <= k <= |txn.ops|
        invariant ReplayOps(n, txn.ops[k..]) == ReplayOps(start, txn.ops)
      {
        assert txn.ops[k..][0] == txn.ops[k] && txn.ops[k..][1..] == txn.ops[k + 1..];
        var next := ApplyOp(n, txn.ops[k]);
        if next.None? {
          return Failed;
        }
        n := next.value;
        k := k + 1;
      }
      assert txn.ops[k..] == [];
      last := last + 1;
      t := t + 1;
    }
    assert log[t..] == [];
    return Replayed(n, last);
  }

  /** The orphan sweep: one pass over the file map, in any order. */
  method SweepOrphans(files: map<Ino, Node>) returns (kept: map<Ino, Node>)
    ensures kept == Sweep(files)
  {
    kept := files;
    var todo := files.Keys;
    while todo != {}
      invariant todo <= files.Keys
      invariant kept == map i | i in files && (i in todo || 0 < files[i].refs) :: files[i]
      decreases todo
    {
      var i :| i in todo;
      if kept[i].refs <= 0 {
        kept := kept - {i};
      }
      todo := todo - {i};
    }
  }

  class BlueFS {
    var dirs: Dirs
    var files: map<Ino, File>
    var inoLast: nat
    var writers: set<Ino>
    var pending: seq<Op>
    var log: seq<Txn>
    var seqLive: nat
    var dirtySeqLive: nat
    var seqStable: nat
    var dirtyFiles: map<nat, seq<Ino>>

    function State(): Fs
      reads this
    {
      Fs(dirs, files, inoLast, writers, pending, log, seqLive, dirtySeqLive, seqStable, dirtyFiles)
    }

    /** Replaying the flushed and pending operations rebuilds what is in memory. */
    ghost predicate Valid()
      reads this
    {
      Inv(State())
    }

    constructor ()
      ensures State() == Fresh && Valid()
    {
      FreshOk();
      dirs, files, inoLast, writers := map[], map[], 1, {};
      pending, log := [], [Txn(1, [OpInit])];
      seqLive, dirtySeqLive, seqStable, dirtyFiles := 2, 2, 1, map[];
    }

    method Mkdir(d: string) returns (r: Errno)
      modifies this
      ensures (State(), r) == BluefsMachine.Mkdir(old(State()), d)
      ensures MadeDirectory(old(State()), d, r, State()) && (old(Valid()) ==> Valid())
    {
      MkdirMeans(State(), d);
      if d in dirs {
        return Exist;
      }
      dirs := dirs[d := map[]];
      pending := pending + [OpDirCreate(d)];
      return Ok;
    }

    method Rmdir(d: string) returns (r: Errno)
      modifies this
      ensures (State(), r) == BluefsMachine.Rmdir(old(State()), d)
      ensures RemovedDirectory(old(State()), d, r, State()) && (old(Valid()) ==> Valid())
    {
      RmdirMeans(State(), d);
      if d !in dirs {
        return NoEnt;
      }
      if dirs[d] != map[] {
        return NotEmpty;
      }
      dirs := dirs - {d};
      pending := pending + [OpDirRemove(d)];
      return Ok;
    }

    method OpenForWrite(d: string, x: string, overwrite: bool) returns (r: Errno)
      requires d in dirs && x in dirs[d] ==> dirs[d][x] in files
      modifies this
      ensures (State(), r) == BluefsMachine.OpenForWrite(old(State()), d, x, overwrite)
      ensures OpenedFile(old(State()), d, x, overwrite, r, State()) && (r != Ok ==> State() == old(State()))
      ensures old(Valid()) ==> Valid() && (r == Ok ==> Entry(dirs, d, x, dirs[d][x]) && Durable(State(), dirs[d][x]))
    {
      r := OpenFile(d, x, overwrite);
      OpenMeans(old(State()), d, x, overwrite);
      assert old(Valid()) ==> Valid() && (r == Ok ==> Entry(dirs, d, x, dirs[d][x]) && Durable(State(), dirs[d][x])) by {
        if old(Valid()) {
          OpenIsDurable(old(State()), d, x, overwrite);
        }
      }
    }

    method OpenFile(d: string, x: string, overwrite: bool) returns (r: Errno)
      requires d in dirs && x in dirs[d] ==> dirs[d][x] in files
      modifies this
      ensures (State(), r) == BluefsMachine.OpenForWrite(old(State()), d, x, overwrite)
    {
      if d !in dirs {
        return NoEnt;
      }
      if x !in dirs[d] {
        if overwrite {
          return NoEnt;
        }
        inoLast := inoLast + 1;
        var i := inoLast;
        var node := FreshNode.(refs := 1);
        files := files[i := File(node, false, 0)];
        dirs := AddEntry(dirs, d, x, i);
        pending := pending + [FullUpdate(i, node), OpDirLink(d, x, i)];
        writers := writers + {i};
      } else {
        var i := dirs[d][x];
        var node := files[i].node;
        if !overwrite {
          node := node.(size := 0, extents := [], committed := 0);
        }
        node := node.(mtime := 0);
        pending := pending + [FullUpdate(i, node)];
        files := files[i := files[i].(node := ResetDelta(node))];
        writers := writers + {i};
      }
      return Ok;
    }

    method DropLink(i: Ino)
      requires i in files
      modifies this
      ensures State() == BluefsMachine.DropLink(old(State()), i)
      ensures i in files && (old(files[i].node.refs) == 1 ==> files[i].node.deleted)
      ensures old(files[i].node.refs) == 1 && old(seqStable < files[i].dirtySeq) ==>
                old(files[i].dirtySeq) in dirtyFiles ==> i !in dirtyFiles[old(files[i].dirtySeq)]
    {
      if files[i].dirtySeq in dirtyFiles {
        WithoutDrops(dirtyFiles[files[i].dirtySeq], i);
      }
      var f := files[i];
      f := f.(node := f.node.(refs := f.node.refs - 1));
      if f.node.refs == 0 {
        pending := pending + [OpFileRemove(i)];
        f := f.(node := f.node.(deleted := true));
        if seqStable < f.dirtySeq {
          dirtyFiles := Retract(dirtyFiles, f.dirtySeq, i);
          f := f.(dirtySeq := seqStable);
        }
      }
      files := files[i := f];
    }

    method Unlink(d: string, x: string) returns (r: Errno)
      requires d in dirs && x in dirs[d] ==> dirs[d][x] in files
      modifies this
      ensures (State(), r) == BluefsMachine.Unlink(old(State()), d, x)
      ensures Unlinked(old(State()), d, x, r, State()) && (r != Ok ==> State() == old(State()))
      ensures old(Valid()) ==> Valid()
      ensures old(Valid()) && r == Ok ==>
                var i := old(dirs[d][x]);
                i !in ReplayAll(State()).value.files && BluefsMachine.Remount(State()).Some?
                && i !in BluefsMachine.Remount(State()).value.files
    {
      r := UnlinkFile(d, x);
      UnlinkMeans(old(State()), d, x);
      if old(Valid()) {
        UnlinkIsDurable(old(State()), d, x);
      }
    }

    method UnlinkFile(d: string, x: string) returns (r: Errno)
      requires d in dirs && x in dirs[d] ==> dirs[d][x] in files
      modifies this
      ensures (State(), r) == BluefsMachine.Unlink(old(State()), d, x)
    {
      if d !in dirs {
        return NoEnt;
      }
      if x !in dirs[d] {
        return NoEnt;
      }
      var i := dirs[d][x];
      dirs := RemoveEntry(dirs, d, x);
      pending := pending + [OpDirUnlink(d, x)];
      DropLink(i);
      return Ok;
    }

    method Rename(od: string, ox: string, nd: string, nx: string) returns (r: Errno)
      modifies this
      ensures (State(), r) == BluefsMachine.Rename(old(State()), od, ox, nd, nx)
      ensures Moved(old(State()), od, ox, nd, nx, r, State()) && (r != Ok ==> State() == old(State()))
      ensures old(Valid()) ==> Valid()
    {
      r := RenameFile(od, ox, nd, nx);
      RenameMeans(old(State()), od, ox, nd, nx);
      if old(Valid()) {
        RenameKeeps(old(State()), od, ox, nd, nx);
      }
    }

    method RenameFile(od: string, ox: string, nd: string, nx: string) returns (r: Errno)
      modifies this
      ensures (State(), r) == BluefsMachine.Rename(old(State()), od, ox, nd, nx)
    {
      if od !in dirs || ox !in dirs[od] {
        return NoEnt;
      }
      var i := dirs[od][ox];
      if nd !in dirs {
        return NoEnt;
      }
      var ops := [];
      if nx in dirs[nd] && dirs[nd][nx] != i {
        ops := [OpDirUnlink(nd, nx)];
      }
      dirs := RemoveEntry(AddEntry(dirs, nd, nx, i), od, ox);
      ops := ops + [OpDirLink(nd, nx, i), OpDirUnlink(od, ox)];
      pending := pending + ops;
      return Ok;
    }

    method FlushRange(i: Ino, w: Write) returns (r: Errno)
      requires i in files
      modifies this`files
      ensures (State(), r) == Flush(old(State()), i, w)
      ensures Flushed(old(State()), i, w, r, State())
      ensures old(Valid()) && i in writers && GoodWrite(w) ==> Valid()
    {
      r := FlushFile(i, w);
      FlushMeans(old(State()), i, w);
      if old(Valid()) && i in writers && GoodWrite(w) {
        FlushKeeps(old(State()), i, w);
      }
    }

    method FlushFile(i: Ino, w: Write) returns (r: Errno)
      requires i in files
      modifies this`files
      ensures (State(), r) == Flush(old(State()), i, w) && i in files
    {
      if w.NoWrite? || files[i].node.deleted {
        return Ok;
      }
      var n := files[i].node;
      if Total(n.extents) < w.off + w.len {
        if w.got.None? {
          return NoSpc;
        }
        n := n.(extents := Claim(n.extents, w.got.value));
        files := files[i := files[i].(node := n, isDirty := true)];
      }
      if n.size < w.off + w.len {
        files := files[i := files[i].(node := n.(size := w.off + w.len), isDirty := true)];
      }
      assert State().files == Flush(old(State()), i, w).0.files;
      return Ok;
    }

    method Truncate(i: Ino, off: nat, w: Write) returns (r: Errno)
      requires i in files && Positive(files[i].node.extents) && GoodWrite(w)
      modifies this
      ensures (State(), r) == BluefsMachine.Truncate(old(State()), i, off, w)
      ensures Cut(old(State()), i, off, w, r, State())
      ensures old(Valid()) && old(i in writers) ==> Valid()
      ensures old(Valid()) && old(i in writers) && r == Ok && off < old(files[i].node.size) && old(Linked(State(), i)) ==>
                Durable(State(), i) && BluefsMachine.Remount(State()).value.files[i].node.size == off
    {
      r := TruncateFile(i, off, w);
      TruncateMeans(old(State()), i, off, w);
      if old(Valid()) && old(i in writers) {
        TruncateIsDurable(old(State()), i, off, w);
      }
    }

    method TruncateFile(i: Ino, off: nat, w: Write) returns (r: Errno)
      requires i in files && Positive(files[i].node.extents) && GoodWrite(w)
      modifies this
      ensures (State(), r) == BluefsMachine.Truncate(old(State()), i, off, w)
    {
      if files[i].node.deleted {
        return Ok;
      }
      if files[i].node.size < off {
        return Inval;
      }
      if off == files[i].node.size {
        return Ok;
      }
      r := FlushFile(i, w);
      if r != Ok {
        return;
      }
      PositiveAfterFlush(old(State()), i, w);
      ghost var flushed := State();
      var kept, toFree := SplitExtents(files[i].node.extents, off);
      var n := files[i].node.(extents := kept, size := off);
      pending := pending + [FullUpdate(i, n)];
      files := files[i := files[i].(node := ResetDelta(n), isDirty := true)];
      assert State().files == BluefsMachine.Truncate(old(State()), i, off, w).0.files;
    }

    method Preallocate(i: Ino, off: nat, len: nat, got: Option<seq<Extent>>) returns (r: Errno)
      requires i in files
      modifies this
      ensures (State(), r) == BluefsMachine.Preallocate(old(State()), i, off, len, got)
      ensures Reserved(old(State()), i, off, len, got, r, State())
      ensures old(Valid()) && (got.Some? ==> Positive(got.value)) ==>
                (Valid() <==> !Hazard(old(State()), CPreallocate(i, off, len, got)))
      ensures old(Valid() && Linked(State(), i)) && (got.Some? ==> Positive(got.value)) && Valid() && State() != old(State()) ==>
                Durable(State(), i)
    {
      r := PreallocateFile(i, off, len, got);
      PreallocateMeans(old(State()), i, off, len, got);
      if old(Valid()) && (got.Some? ==> Positive(got.value)) {
        StepKeepsIff(old(State()), CPreallocate(i, off, len, got));
        if Valid() {
          PreallocateIsDurable(old(State()), i, off, len, got);
        }
      }
    }

    method PreallocateFile(i: Ino, off: nat, len: nat, got: Option<seq<Extent>>) returns (r: Errno)
      requires i in files
      modifies this
      ensures (State(), r) == BluefsMachine.Preallocate(old(State()), i, off, len, got)
    {
      var n := files[i].node;
      if n.deleted {
        return Ok;
      }
      if Total(n.extents) < off + len {
        if got.None? {
          return NoSpc;
        }
        n := n.(extents := Claim(n.extents, got.value));
        pending := pending + [IncUpdate(i, n)];
        files := files[i := files[i].(node := ResetDelta(n))];
      }
      return Ok;
    }

    method SignalDirtyToLog(i: Ino)
      requires i in files
      modifies this
      ensures State() == SignalDirty(old(State()), i)
      ensures i in files && !files[i].isDirty
      ensures old(Sequenced(State())) ==> files[i].dirtySeq == seqLive && dirtyFiles == map[seqLive := [i]]
    {
      assert [] + [i] == [i];
      var f := files[i];
      if f.dirtySeq <= seqStable || f.dirtySeq == 0 {
        f := f.(dirtySeq := dirtySeqLive);
        var q := if dirtySeqLive in dirtyFiles then dirtyFiles[dirtySeqLive] else [];
        dirtyFiles := dirtyFiles[dirtySeqLive := q + [i]];
      }
      files := files[i := f.(isDirty := false)];
    }

    method ConsumeDirtyFiles(q: seq<Ino>)
      requires forall i :: i in q ==> i in files
      modifies this
      ensures State() == ConsumeDirty(old(State()), q)
      ensures files.Keys == old(files.Keys)
    {
      var k := 0;
      while k < |q|
        invariant 0 <= k <= |q|
        invariant files.Keys == old(files.Keys)
        invariant ConsumeDirty(State(), q[k..]) == ConsumeDirty(old(State()), q)
      {
        var i := q[k];
        assert q[k..][0] == i && q[k..][1..] == q[k + 1..];
        pending := pending + [IncUpdate(i, files[i].node)];
        files := files[i := files[i].(node := ResetDelta(files[i].node))];
        k := k + 1;
      }
      assert q[k..] == [];
    }

    method ClearDirtyFiles(q: seq<Ino>)
      requires forall i :: i in q ==> i in files
      modifies this`files
      ensures State() == ClearDirty(old(State()), q)
    {
      var k := 0;
      while k < |q|
        invariant 0 <= k <= |q|
        invariant files.Keys == old(files.Keys)
        invariant ClearDirty(State(), q[k..]) == ClearDirty(old(State()), q)
      {
        var i := q[k];
        assert q[k..][0] == i && q[k..][1..] == q[k + 1..];
        files := files[i := files[i].(dirtySeq := 0)];
        k := k + 1;
      }
      assert q[k..] == [];
    }

    method FlushAndSyncLog(want: nat)
      requires want <= dirtySeqLive
      requires seqLive in dirtyFiles ==> forall i :: i in dirtyFiles[seqLive] ==> i in files
      modifies this
      ensures State() == FlushLog(old(State()), want)
      ensures old(Valid()) ==> Valid() && Published(old(State()), want, State())
    {
      if want == 0 || seqStable < want {
        CloseTransaction();
      }
      assert old(Valid()) ==> Valid() && Published(old(State()), want, State()) by {
        if old(Valid()) {
          FlushLogKeeps(old(State()), want);
        }
      }
    }

    /** The part of `_flush_and_sync_log` that closes the live transaction. */
    method CloseTransaction()
      requires seqLive in dirtyFiles ==> forall i :: i in dirtyFiles[seqLive] ==> i in files
      modifies this
      ensures State() == FlushLog(old(State()), 0)
    {
      var s := seqLive;
      var q := if s in dirtyFiles then dirtyFiles[s] else [];
      seqLive := seqLive + 1;
      dirtySeqLive := seqLive;
      ConsumeDirtyFiles(q);
      ghost var a := State();
      assert a == ConsumeDirty(old(State()).(seqLive := s + 1, dirtySeqLive := s + 1), q);
      ConsumeKeepsQueue(old(State()).(seqLive := s + 1, dirtySeqLive := s + 1), q);
      PublishTransaction(s, q);
    }

    /** The rest of it: the transaction is in the log, and its files are no longer dirty. */
    method PublishTransaction(s: nat, q: seq<Ino>)
      requires forall i :: i in q ==> i in files
      modifies this
      ensures var b := old(State()).(log := old(log) + [Txn(s, old(pending))], pending := [], seqStable := s);
              State() == ClearDirty(b, q).(dirtyFiles := old(dirtyFiles) - {s})
    {
      log := log + [Txn(s, pending)];
      pending := [];
      seqStable := s;
      ClearDirtyFiles(q);
      ClearKeepsQueue(old(State()).(log := old(log) + [Txn(s, old(pending))], pending := [], seqStable := s), q);
      dirtyFiles := dirtyFiles - {s};
    }

    method Fsync(i: Ino, w: Write) returns (r: Errno)
      requires i in files && Sequenced(State())
      modifies this
      ensures (State(), r) == BluefsMachine.Fsync(old(State()), i, w)
      ensures SyncedFile(old(State()), i, w, r, State())
      ensures old(Valid()) && old(i in writers) && GoodWrite(w) ==>
                && (Valid() <==> !Hazard(old(State()), CFsync(i, w)))
                && (r == Ok && old(Linked(State(), i)) ==> Durable(State(), i))
                && LoggedIf(old(State()), i, w, r, State())
    {
      r := SyncFile(i, w);
      FsyncMeans(old(State()), i, w);
      if old(Valid()) && old(i in writers) && GoodWrite(w) {
        FsyncIsDurable(old(State()), i, w);
        if !FileAt(old(State()), i).node.deleted && r == Ok && FileAt(Flush(old(State()), i, w).0, i).isDirty {
          FsyncIsLogged(old(State()), i, w);
        }
      }
    }

    method SyncFile(i: Ino, w: Write) returns (r: Errno)
      requires i in files && Sequenced(State())
      modifies this
      ensures (State(), r) == BluefsMachine.Fsync(old(State()), i, w)
    {
      r := FlushRange(i, w);
      FlushFrame(old(State()), i, w);
      if r != Ok {
        return;
      }
      if files[i].isDirty {
        SignalDirtyToLog(i);
      }
      var seq_ := files[i].dirtySeq;
      if seqStable < seq_ {
        FlushAndSyncLog(seq_);
      }
    }

    /** Unmount, then mount from the log; `ok` is false when replay aborts. */
    method Remount() returns (ok: bool)
      requires Sequenced(State())
      modifies this
      ensures ok <==> BluefsMachine.Remount(old(State())).Some?
      ensures ok ==> Some(State()) == BluefsMachine.Remount(old(State()))
      ensures old(Valid()) ==> ok && Valid() && Restores(old(State()), State())
    {
      CloseTransaction();
      ok := MountLog();
      assert old(Valid()) ==> ok && Valid() && Restores(old(State()), State()) by {
        if old(Valid()) {
          RemountRestoresAll(old(State()));
        }
      }
    }

    /** `mount`: replay the log into the maps and sweep. */
    method MountLog() returns (ok: bool)
      modifies this
      ensures ok <==> Mount(old(log)).Some?
      ensures ok ==> Some(State()) == Mount(old(log))
    {
      var r := Replay(log);
      if r.Failed? {
        return false;
      }
      var kept := SweepOrphans(r.nodes.files);
      dirs, inoLast, writers := r.nodes.dirs, r.nodes.inoLast, {};
      files := map i | i in kept :: File(kept[i], false, 0);
      pending, dirtyFiles := [], map[];
      seqLive, dirtySeqLive, seqStable := r.last + 1, r.last + 1, r.last;
      return true;
    }
  }

  lemma {:induction false} ClearKeepsQueue(fs: Fs, q: seq<Ino>)
    ensures ClearDirty(fs, q).dirtyFiles == fs.dirtyFiles
    decreases |q|
  {
    if q != [] {
      ClearKeepsQueue(SetNode(fs, q[0], FileAt(fs, q[0]).(dirtySeq := 0)), q[1..]);
    }
  }

  lemma {:induction false} ConsumeKeepsQueue(fs: Fs, q: seq<Ino>)
    ensures ConsumeDirty(fs, q).dirtyFiles == fs.dirtyFiles
    decreases |q|
  {
    if q != [] {
      ConsumeKeepsQueue(LogUpdate(fs, q[0], FileAt(fs, q[0]), IncUpdate(q[0], FileAt(fs, q[0]).node)), q[1..]);
    }
  }

  /** Unless `want` is in the log already, the pending operations are its next transaction. */
  ghost predicate Published(fs: Fs, want: nat, fs': Fs) {
    && fs'.dirs == fs.dirs && fs'.files == fs.files && fs'.dirtyFiles == map[]
    && (if want == 0 || |fs.log| < want then fs'.log == fs.log + [Txn(|fs.log| + 1, fs.pending)] && fs'.pending == []
        else fs'.log == fs.log && fs'.pending == fs.pending)
  }

  lemma FlushLogKeeps(fs: Fs, want: nat)
    requires Inv(fs)
    ensures Inv(FlushLog(fs, want)) && Published(fs, want, FlushLog(fs, want))
  {
    if !(want != 0 && want <= fs.seqStable) {
      SyncKeeps(fs);
      SyncShape(fs);
    }
  }

  /** A successful sync of a linked file with something to write leaves it logged. */
  ghost predicate LoggedIf(fs: Fs, i: Ino, w: Write, r: Errno, fs': Fs) {
    !FileAt(fs, i).node.deleted && r == Ok && FileAt(Flush(fs, i, w).0, i).isDirty ==> Logged(fs', i)
  }

  lemma PositiveAfterFlush(fs: Fs, i: Ino, w: Write)
    requires i in fs.files && Positive(fs.files[i].node.extents) && GoodWrite(w)
    ensures Positive(FileAt(Flush(fs, i, w).0, i).node.extents)
  {
    if w.Write? && w.got.Some? {
      PositiveClaim(fs.files[i].node.extents, w.got.value);
    }
  }

  lemma {:induction false} PositiveClaim(es: seq<Extent>, xs: seq<Extent>)
    requires Positive(es) && Positive(xs)
    ensures Positive(Claim(es, xs))
    decreases xs
  {
    if xs != [] {
      PositiveClaim(Append(es, xs[0]), xs[1..]);
    }
  }
}
