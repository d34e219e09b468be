/**
 BlueFS as a state machine (`bluestore/bluefs.cc`): the namespace and file
 operations change the in-memory maps and append operations to the pending log
 transaction; flushing numbers the transaction and moves it to the log;
 unmounting and mounting replaces the maps by what replay rebuilds.

 Every function gives the new state and the return code of one source method,
 run on its own.  What the allocator hands out and what a writer has buffered
 are parameters.
 */
module BluefsMachine {
  import opened Options
  import opened BluefsTypes
  import opened BluefsLog

  datatype Errno = Ok | NoEnt | Exist | NotEmpty | Inval | NoSpc

  datatype File = File(node: Node, isDirty: bool, dirtySeq: nat)

  /**
   `files` holds every File object, by ino; the source's `file_map` has those not
   yet `deleted`.  `writers` are the inos opened for writing since the last mount.
   */
  datatype Fs = Fs(
    dirs: Dirs, files: map<Ino, File>, inoLast: nat, writers: set<Ino>,
    pending: seq<Op>, log: seq<Txn>,
    seqLive: nat, dirtySeqLive: nat, seqStable: nat, dirtyFiles: map<nat, seq<Ino>>)

  /** A flush of a writer: the range it covers, and what the allocator would give for it. */
  datatype Write = NoWrite | Write(off: nat, len: nat, got: Option<seq<Extent>>)

  const NoFile := File(FreshNode, false, 0)

  function FileAt(fs: Fs, i: Ino): File {
    if i in fs.files then fs.files[i] else NoFile
  }

  function SetNode(fs: Fs, i: Ino, f: File): Fs {
    fs.(files := fs.files[i := f])
  }

  function ResetDelta(n: Node): Node {
    n.(committed := Total(n.extents))
  }

  function FullUpdate(i: Ino, n: Node): Op {
    OpFileUpdate(i, n.size, n.mtime, n.extents)
  }

  function IncUpdate(i: Ino, n: Node): Op {
    OpFileUpdateInc(i, n.size, n.mtime, n.committed, Tail(n.extents, n.committed))
  }

  /** Appends an update operation for file `i` and resets its delta mark. */
  function LogUpdate(fs: Fs, i: Ino, f: File, op: Op): Fs {
    fs.(files := fs.files[i := f.(node := ResetDelta(f.node))], pending := fs.pending + [op])
  }

  function Mkdir(fs: Fs, d: string): (Fs, Errno) {
    if d in fs.dirs then (fs, Exist)
    else (fs.(dirs := fs.dirs[d := map[]], pending := fs.pending + [OpDirCreate(d)]), Ok)
  }

  function Rmdir(fs: Fs, d: string): (Fs, Errno) {
    if d !in fs.dirs then (fs, NoEnt)
    else if fs.dirs[d] != map[] then (fs, NotEmpty)
    else (fs.(dirs := fs.dirs - {d}, pending := fs.pending + [OpDirRemove(d)]), Ok)
  }

  function OpenForWrite(fs: Fs, d: string, x: string, overwrite: bool): (Fs, Errno) {
    if d !in fs.dirs then (fs, NoEnt)
    else if x !in fs.dirs[d] then
      if overwrite then (fs, NoEnt)
      else
        var i := fs.inoLast + 1;
        var node := FreshNode.(refs := 1);
        (fs.(files := fs.files[i := File(node, false, 0)], dirs := AddEntry(fs.dirs, d, x, i),
             inoLast := i, writers := fs.writers + {i},
             pending := fs.pending + [FullUpdate(i, node), OpDirLink(d, x, i)]), Ok)
    else
      var i := fs.dirs[d][x];
      var f := FileAt(fs, i);
      var node := if overwrite then f.node.(mtime := 0)
                  else f.node.(size := 0, mtime := 0, extents := [], committed := 0);
      (LogUpdate(fs, i, f.(node := node), FullUpdate(i, node)).(writers := fs.writers + {i}), Ok)
  }

  function Without(v: seq<Ino>, i: Ino): seq<Ino> {
    if v == [] then [] else (if v[0] == i then [] else [v[0]]) + Without(v[1..], i)
  }

  /** Takes file `i` back out of the dirty list of transaction `s`. */
  function Retract(dirty: map<nat, seq<Ino>>, s: nat, i: Ino): map<nat, seq<Ino>> {
    if s !in dirty then dirty
    else if Without(dirty[s], i) == [] then dirty - {s}
    else dirty[s := Without(dirty[s], i)]
  }

  function DropLink(fs: Fs, i: Ino): Fs {
    var f := FileAt(fs, i);
    var n := f.node.(refs := f.node.refs - 1);
    if n.refs != 0 then SetNode(fs, i, f.(node := n))
    else
      var logged := fs.(pending := fs.pending + [OpFileRemove(i)]);
      var gone := f.(node := n.(deleted := true));
      if fs.seqStable < f.dirtySeq then
        SetNode(logged, i, gone.(dirtySeq := fs.seqStable)).(dirtyFiles := Retract(fs.dirtyFiles, f.dirtySeq, i))
      else SetNode(logged, i, gone)
  }

  function Unlink(fs: Fs, d: string, x: string): (Fs, Errno) {
    if d !in fs.dirs || x !in fs.dirs[d] then (fs, NoEnt)
    else
      (DropLink(fs.(dirs := RemoveEntry(fs.dirs, d, x), pending := fs.pending + [OpDirUnlink(d, x)]),
                fs.dirs[d][x]), Ok)
  }

  /** The log operations of a rename; a different file at the target is unlinked first. */
  function RenameOps(dirs: Dirs, od: string, ox: string, nd: string, nx: string): seq<Op>
    requires od in dirs && ox in dirs[od] && nd in dirs
  {
    var i := dirs[od][ox];
    (if nx in dirs[nd] && dirs[nd][nx] != i then [OpDirUnlink(nd, nx)] else [])
    + [OpDirLink(nd, nx, i), OpDirUnlink(od, ox)]
  }

  function Rename(fs: Fs, od: string, ox: string, nd: string, nx: string): (Fs, Errno) {
    if od !in fs.dirs || ox !in fs.dirs[od] || nd !in fs.dirs then (fs, NoEnt)
    else
      (fs.(dirs := RemoveEntry(AddEntry(fs.dirs, nd, nx, fs.dirs[od][ox]), od, ox),
           pending := fs.pending + RenameOps(fs.dirs, od, ox, nd, nx)), Ok)
  }

  /** `_flush_range_F`: allocate what is missing, then extend the size. */
  function Flush(fs: Fs, i: Ino, w: Write): (Fs, Errno) {
    var f := FileAt(fs, i);
    if w.NoWrite? || f.node.deleted then (fs, Ok)
    else
      var need := Total(f.node.extents) < w.off + w.len;
      if need && w.got.None? then (fs, NoSpc)
      else
        var n := if need then f.node.(extents := Claim(f.node.extents, w.got.value)) else f.node;
        var grows := n.size < w.off + w.len;
        var n' := if grows then n.(size := w.off + w.len) else n;
        (SetNode(fs, i, f.(node := n', isDirty := f.isDirty || need || grows)), Ok)
  }

  function Truncate(fs: Fs, i: Ino, off: nat, w: Write): (Fs, Errno) {
    var f := FileAt(fs, i);
    if f.node.deleted then (fs, Ok)
    else if f.node.size < off then (fs, Inval)
    else if off == f.node.size then (fs, Ok)
    else
      var (fs1, r) := Flush(fs, i, w);
      if r != Ok then (fs1, r)
      else
        var g := FileAt(fs1, i);
        var n := g.node.(extents := Claim([], Head(g.node.extents, off)), size := off);
        (LogUpdate(fs1, i, g.(node := n, isDirty := true), FullUpdate(i, n)), Ok)
  }

  function Preallocate(fs: Fs, i: Ino, off: nat, len: nat, got: Option<seq<Extent>>): (Fs, Errno) {
    var f := FileAt(fs, i);
    if f.node.deleted || off + len <= Total(f.node.extents) then (fs, Ok)
    else if got.None? then (fs, NoSpc)
    else
      var n := f.node.(extents := Claim(f.node.extents, got.value));
      (LogUpdate(fs, i, f.(node := n), IncUpdate(i, n)), Ok)
  }

  /** `_signal_dirty_to_log`. */
  function SignalDirty(fs: Fs, i: Ino): Fs {
    var f := FileAt(fs, i);
    if f.dirtySeq <= fs.seqStable || f.dirtySeq == 0 then
      var q := if fs.dirtySeqLive in fs.dirtyFiles then fs.dirtyFiles[fs.dirtySeqLive] else [];
      SetNode(fs, i, f.(dirtySeq := fs.dirtySeqLive, isDirty := false))
        .(dirtyFiles := fs.dirtyFiles[fs.dirtySeqLive := q + [i]])
    else SetNode(fs, i, f.(isDirty := false))
  }

  /** `_consume_dirty`: one incremental update per dirty file of the transaction. */
  function ConsumeDirty(fs: Fs, q: seq<Ino>): Fs
    decreases q
  {
    if q == [] then fs
    else ConsumeDirty(LogUpdate(fs, q[0], FileAt(fs, q[0]), IncUpdate(q[0], FileAt(fs, q[0]).node)), q[1..])
  }

  function ClearDirty(fs: Fs, q: seq<Ino>): Fs
    decreases q
  {
    if q == [] then fs
    else ClearDirty(SetNode(fs, q[0], FileAt(fs, q[0]).(dirtySeq := 0)), q[1..])
  }

  /** `_flush_and_sync_log`: closes the live transaction and appends it to the log. */
  function FlushLog(fs: Fs, want: nat): Fs {
    if want != 0 && want <= fs.seqStable then fs
    else
      var s := fs.seqLive;
      var q := if s in fs.dirtyFiles then fs.dirtyFiles[s] else [];
      var a := ConsumeDirty(fs.(seqLive := s + 1, dirtySeqLive := s + 1), q);
      var b := a.(log := a.log + [Txn(s, a.pending)], pending := [], seqStable := s);
      ClearDirty(b, q).(dirtyFiles := b.dirtyFiles - {s})
  }

  function Fsync(fs: Fs, i: Ino, w: Write): (Fs, Errno) {
    var (fs1, r) := Flush(fs, i, w);
    if r != Ok then (fs1, r)
    else
      var fs2 := if FileAt(fs1, i).isDirty then SignalDirty(fs1, i) else fs1;
      if fs2.seqStable < FileAt(fs2, i).dirtySeq then (FlushLog(fs2, FileAt(fs2, i).dirtySeq), Ok)
      else (fs2, Ok)
  }

  /** `mount`: replay into empty maps, then sweep; `None` when replay aborts or reports an error. */
  function Mount(log: seq<Txn>): Option<Fs> {
    match ReplayTxns(NoNodes, 0, log)
    case Failed => None
    case Replayed(n, last) =>
      var kept := Sweep(n.files);
      Some(Fs(n.dirs, map i | i in kept :: File(kept[i], false, 0), n.inoLast, {},
              [], log, last + 1, last + 1, last, map[]))
  }

  /** The state after `mkfs` and the first `mount`: the log has one transaction holding `OP_INIT`. */
  const Fresh := Fs(map[], map[], 1, {}, [], [Txn(1, [OpInit])], 2, 2, 1, map[])

  /** `umount` flushes the log and records it in the superblock; `mount` reads it back. */
  function Remount(fs: Fs): Option<Fs> {
    Mount(FlushLog(fs, 0).log)
  }

  datatype Cmd =
    | CMkdir(dir: string)
    | CRmdir(dir: string)
    | COpen(dir: string, name: string, overwrite: bool)
    | CUnlink(dir: string, name: string)
    | CRename(dir: string, name: string, newDir: string, newName: string)
    | CFlush(ino: Ino, write: Write)
    | CTruncate(ino: Ino, size: nat, write: Write)
    | CPreallocate(ino: Ino, off: nat, len: nat, got: Option<seq<Extent>>)
    | CFsync(ino: Ino, write: Write)
    | CSync
    | CRemount

  function Exec(fs: Fs, c: Cmd): Option<Fs> {
    match c
    case CMkdir(d) => Some(Mkdir(fs, d).0)
    case CRmdir(d) => Some(Rmdir(fs, d).0)
    case COpen(d, x, o) => Some(OpenForWrite(fs, d, x, o).0)
    case CUnlink(d, x) => Some(Unlink(fs, d, x).0)
    case CRename(d, x, nd, nx) => Some(Rename(fs, d, x, nd, nx).0)
    case CFlush(i, w) => Some(Flush(fs, i, w).0)
    case CTruncate(i, size, w) => Some(Truncate(fs, i, size, w).0)
    case CPreallocate(i, off, len, got) => Some(Preallocate(fs, i, off, len, got).0)
    case CFsync(i, w) => Some(Fsync(fs, i, w).0)
    case CSync => Some(FlushLog(fs, 0))
    case CRemount => Remount(fs)
  }

  function Run(fs: Fs, cs: seq<Cmd>): Option<Fs>
    decreases cs
  {
    if cs == [] then Some(fs)
    else
      var r := Exec(fs, cs[0]);
      if r.None? then None else Run(r.value, cs[1..])
  }

  ghost predicate GoodWrite(w: Write) {
    w.Write? && w.got.Some? ==> Positive(w.got.value)
  }

  /**
   What the callers owe: a writer operation uses a writer opened since the mount,
   a preallocation names an existing file, and allocators hand out no empty extent.
   */
  ghost predicate Legal(fs: Fs, c: Cmd) {
    match c
    case CFlush(i, w) => i in fs.writers && i in fs.files && GoodWrite(w)
    case CTruncate(i, _, w) => i in fs.writers && i in fs.files && GoodWrite(w)
    case CFsync(i, w) => i in fs.writers && i in fs.files && GoodWrite(w)
    case CPreallocate(i, _, _, got) => i in fs.files && (got.Some? ==> Positive(got.value))
    case _ => true
  }

  /**
   The two calls that write an operation the next replay cannot apply: an fsync
   through a writer whose file was unlinked while dirty and had logged space,
   and a growing preallocation of a file that was not opened for writing since
   the mount and whose delta mark the mount left behind its allocation.
   */
  predicate Hazard(fs: Fs, c: Cmd) {
    match c
    case CFsync(i, _) =>
      var f := FileAt(fs, i);
      f.node.deleted && f.isDirty && f.node.committed != 0
    case CPreallocate(i, off, len, got) =>
      var n := FileAt(fs, i).node;
      !n.deleted && i !in fs.writers && got.Some? && n.committed != Total(n.extents) < off + len
    case _ => false
  }
}
