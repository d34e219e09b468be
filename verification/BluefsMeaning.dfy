/**
 What the BlueFS calls mean to a caller: directory entries, sizes, and where the
 bytes of a file lie, stated on the states before and after and not through the
 state machine; and which changes the next mount brings back.
 */
module BluefsMeaning {
  import opened Options
  import opened BluefsTypes
  import opened BluefsLog
  import opened BluefsMachine
  import opened BluefsProofs
  import opened BluefsRuns
  import opened BluefsRename

  /** No other file changes. */
  ghost predicate OnlyFile(fs: Fs, fs': Fs, i: Ino) {
    && i in fs'.files
    && forall j :: j != i ==> (j in fs.files <==> j in fs'.files) && (j in fs.files ==> fs'.files[j] == fs.files[j])
  }

  /** No other file changes, nor any directory. */
  ghost predicate OnlyNode(fs: Fs, fs': Fs, i: Ino) {
    OnlyFile(fs, fs', i) && fs'.dirs == fs.dirs && fs'.inoLast == fs.inoLast
  }

  ghost predicate Linked(fs: Fs, i: Ino) {
    exists d, x :: Entry(fs.dirs, d, x, i)
  }

  /** The next mount brings file `i` back as it is in memory. */
  ghost predicate Durable(fs: Fs, i: Ino) {
    && i in fs.files && Remount(fs).Some? && i in Remount(fs).value.files
    && var n, m := fs.files[i].node, Remount(fs).value.files[i].node;
       m.size == n.size && m.mtime == n.mtime && m.extents == n.extents
  }

  lemma ReplayedIsDurable(fs: Fs, i: Ino)
    requires Inv(fs) && Linked(fs, i) && Replays(fs, i)
    ensures Durable(fs, i)
  {
    var d, x :| Entry(fs.dirs, d, x, i);
    RemountIsIdentity(fs, d, x, i);
    RemountKeeps(fs);
  }

  // Directories.

  /** A new, empty directory. */
  ghost predicate MadeDirectory(fs: Fs, d: string, r: Errno, fs': Fs) {
    && r == (if d in fs.dirs then Exist else Ok)
    && fs'.dirs.Keys == fs.dirs.Keys + {d} && fs'.files == fs.files
    && forall d1, x, i :: Entry(fs'.dirs, d1, x, i) <==> Entry(fs.dirs, d1, x, i)
  }

  lemma MkdirMeans(fs: Fs, d: string)
    ensures MadeDirectory(fs, d, Mkdir(fs, d).1, Mkdir(fs, d).0)
    ensures Inv(fs) ==> Inv(Mkdir(fs, d).0)
  {
    if Inv(fs) {
      MkdirKeeps(fs, d);
    }
  }

  /** The directory is gone, and it was there without entries; otherwise nothing changed. */
  ghost predicate RemovedDirectory(fs: Fs, d: string, r: Errno, fs': Fs) {
    && (r == NoEnt <==> d !in fs.dirs)
    && (r == NotEmpty <==> exists x, i :: Entry(fs.dirs, d, x, i))
    && (r == Ok || r == NoEnt || r == NotEmpty)
    && fs'.dirs.Keys == (if r == Ok then fs.dirs.Keys - {d} else fs.dirs.Keys) && fs'.files == fs.files
    && forall d1, x, i :: Entry(fs'.dirs, d1, x, i) <==> Entry(fs.dirs, d1, x, i)
  }

  lemma RmdirMeans(fs: Fs, d: string)
    ensures RemovedDirectory(fs, d, Rmdir(fs, d).1, Rmdir(fs, d).0)
    ensures Inv(fs) ==> Inv(Rmdir(fs, d).0)
  {
    if d in fs.dirs && fs.dirs[d] != map[] {
      var x :| x in fs.dirs[d];
      assert Entry(fs.dirs, d, x, fs.dirs[d][x]);
    }
    if Inv(fs) {
      RmdirKeeps(fs, d);
    }
  }

  /**
   Opening for writing.  An existing file stays the same file: with `overwrite` it
   keeps its size and its bytes, without it has neither.  A missing one is created
   under a number never used before.
   */
  ghost predicate OpenedFile(fs: Fs, d: string, x: string, overwrite: bool, r: Errno, fs': Fs) {
    && r == (if d in fs.dirs && (x in fs.dirs[d] || !overwrite) then Ok else NoEnt)
    && (r == Ok ==>
          && d in fs'.dirs && x in fs'.dirs[d]
          && var i := fs'.dirs[d][x];
             && i in fs'.files && i in fs'.writers && OnlyFile(fs, fs', i)
             && (forall d1, x1, j :: Entry(fs'.dirs, d1, x1, j) <==>
                   if d1 == d && x1 == x then j == i else Entry(fs.dirs, d1, x1, j))
             && (if x in fs.dirs[d] then i == fs.dirs[d][x] else i > fs.inoLast && fs'.files[i].node.refs == 1)
             && (!overwrite ==> fs'.files[i].node.size == 0 && fs'.files[i].node.extents == [])
             && (overwrite ==> i in fs.files ==> SameContent(fs.files[i].node, fs'.files[i].node)))
  }

  predicate SameContent(n: Node, m: Node) {
    m.size == n.size && m.extents == n.extents && m.refs == n.refs && m.deleted == n.deleted
  }

  lemma OpenMeans(fs: Fs, d: string, x: string, overwrite: bool)
    ensures var (fs', r) := OpenForWrite(fs, d, x, overwrite);
            OpenedFile(fs, d, x, overwrite, r, fs') && (r != Ok ==> fs' == fs)
  {
    if d in fs.dirs {
      EntriesAdded(fs.dirs, d, x, fs.inoLast + 1);
    }
  }

  /** What opening did to the file, the next mount brings back. */
  lemma OpenIsDurable(fs: Fs, d: string, x: string, overwrite: bool)
    requires Inv(fs)
    ensures var (fs', r) := OpenForWrite(fs, d, x, overwrite);
            Inv(fs') && (r == Ok ==> Entry(fs'.dirs, d, x, fs'.dirs[d][x]) && Durable(fs', fs'.dirs[d][x]))
  {
    OpenKeeps(fs, d, x, overwrite);
    var (fs', r) := OpenForWrite(fs, d, x, overwrite);
    if r == Ok {
      ReplayedIsDurable(fs', fs'.dirs[d][x]);
    }
  }

  lemma {:induction false} WithoutDrops(v: seq<Ino>, i: Ino)
    ensures i !in Without(v, i)
  {
    if v != [] {
      WithoutDrops(v[1..], i);
    }
  }

  /** The name is gone and no other; the file loses one link and keeps its bytes for open writers. */
  ghost predicate Unlinked(fs: Fs, d: string, x: string, r: Errno, fs': Fs) {
    && r == (if d in fs.dirs && x in fs.dirs[d] then Ok else NoEnt)
    && fs'.dirs.Keys == fs.dirs.Keys
    && (forall d1, x1, j :: Entry(fs'.dirs, d1, x1, j) <==> Entry(fs.dirs, d1, x1, j) && !(r == Ok && d1 == d && x1 == x))
    && (r == Ok && fs.dirs[d][x] in fs.files ==>
          var i := fs.dirs[d][x];
          && OnlyFile(fs, fs', i)
          && var n, m := fs.files[i].node, fs'.files[i].node;
             && m.size == n.size && m.extents == n.extents && m.refs == n.refs - 1
             && m.deleted == (n.deleted || m.refs == 0))
  }

  lemma UnlinkMeans(fs: Fs, d: string, x: string)
    ensures var (fs', r) := Unlink(fs, d, x);
            Unlinked(fs, d, x, r, fs') && (r != Ok ==> fs' == fs)
  {
    if d in fs.dirs {
      EntriesRemoved(fs.dirs, d, x);
    }
  }

  /** After an unlink neither replay nor the next mount has the file. */
  lemma UnlinkIsDurable(fs: Fs, d: string, x: string)
    requires Inv(fs)
    ensures var (fs', r) := Unlink(fs, d, x);
            && Inv(fs')
            && (r == Ok ==>
                  && d in fs.dirs && x in fs.dirs[d] && fs.dirs[d][x] !in ReplayAll(fs').value.files
                  && Remount(fs').Some? && fs.dirs[d][x] !in Remount(fs').value.files)
  {
    UnlinkKeeps(fs, d, x);
    if d in fs.dirs && x in fs.dirs[d] {
      var n := ReplayAll(fs).value;
      assert Entry(fs.dirs, d, x, fs.dirs[d][x]) && LinkOk(fs, n, fs.dirs[d][x]);
      UnlinkShape(fs, d, x);
      UnlinkReplays(n, d, x);
      Extend(fs, Unlink(fs, d, x).0, [OpDirUnlink(d, x), OpFileRemove(fs.dirs[d][x])]);
      RemountKeeps(Unlink(fs, d, x).0);
    }
  }

  /** The file goes from the old name to the new one, except onto itself; every other name and every file stays. */
  ghost predicate Moved(fs: Fs, od: string, ox: string, nd: string, nx: string, r: Errno, fs': Fs) {
    && r == (if od in fs.dirs && ox in fs.dirs[od] && nd in fs.dirs then Ok else NoEnt)
    && fs'.dirs.Keys == fs.dirs.Keys && fs'.files == fs.files
    && (r == Ok ==> forall d, x, j :: Entry(fs'.dirs, d, x, j) <==>
          if d == od && x == ox then false
          else if d == nd && x == nx then j == fs.dirs[od][ox]
          else Entry(fs.dirs, d, x, j))
  }

  lemma RenameMeans(fs: Fs, od: string, ox: string, nd: string, nx: string)
    ensures var (fs', r) := Rename(fs, od, ox, nd, nx);
            Moved(fs, od, ox, nd, nx, r, fs') && (r != Ok ==> fs' == fs)
  {
    var (fs', r) := Rename(fs, od, ox, nd, nx);
    if r == Ok {
      EntriesAdded(fs.dirs, nd, nx, fs.dirs[od][ox]);
      EntriesRemoved(AddEntry(fs.dirs, nd, nx, fs.dirs[od][ox]), od, ox);
    }
  }

  // Sizes and bytes.

  /** The write needs space that the file does not have. */
  predicate Lacks(n: Node, w: Write) {
    w.Write? && Total(n.extents) < w.off + w.len
  }

  /** Where byte `x` of the file lies once a write has its space: bytes already placed stay, the rest is the allocator's. */
  function Placed(n: Node, w: Write, x: nat): Option<(nat, nat)> {
    if Lacks(n, w) && w.got.Some? && Total(n.extents) <= x then Phys(w.got.value, x - Total(n.extents))
    else Phys(n.extents, x)
  }

  /** `n` after the write: the size covers it, and every byte is where it was or where the allocator put it. */
  ghost predicate Wrote(n: Node, w: Write, m: Node) {
    && m.size == (if w.Write? then Max(n.size, w.off + w.len) else n.size)
    && Total(m.extents) == Total(n.extents) + (if Lacks(n, w) && w.got.Some? then Total(w.got.value) else 0)
    && (forall x: nat :: Phys(m.extents, x) == Placed(n, w, x))
    && m.mtime == n.mtime && m.refs == n.refs && m.deleted == n.deleted
  }

  /** A flush: no space, with nothing changed, or the write is in the file; a deleted file is left alone. */
  ghost predicate Flushed(fs: Fs, i: Ino, w: Write, r: Errno, fs': Fs) {
    && i in fs.files && OnlyNode(fs, fs', i)
    && var f, g := fs.files[i], fs'.files[i];
       && r == (if !f.node.deleted && Lacks(f.node, w) && w.got.None? then NoSpc else Ok)
       && (r != Ok || f.node.deleted ==> g == f)
       && (r == Ok && !f.node.deleted ==>
             && Wrote(f.node, w, g.node) && g.node.committed == f.node.committed
             && (g.isDirty <==> f.isDirty || Lacks(f.node, w) || f.node.size < g.node.size))
  }

  /** Claimed space: what was there stays, what is new comes after it. */
  lemma ClaimPlaces(es: seq<Extent>, got: seq<Extent>)
    ensures Total(Claim(es, got)) == Total(es) + Total(got)
    ensures forall x: nat :: Phys(Claim(es, got), x) == if x < Total(es) then Phys(es, x) else Phys(got, x - Total(es))
  {
    ClaimInvariant(es, got);
    forall x: nat ensures Phys(Claim(es, got), x) == if x < Total(es) then Phys(es, x) else Phys(got, x - Total(es)) {
      ClaimKeepsPhys(es, got, x);
      PhysConcat(es, got, x);
    }
  }

  lemma FlushMeans(fs: Fs, i: Ino, w: Write)
    requires i in fs.files
    ensures Flushed(fs, i, w, Flush(fs, i, w).1, Flush(fs, i, w).0)
  {
    var n := fs.files[i].node;
    if w.Write? && !n.deleted && !(Lacks(n, w) && w.got.None?) {
      WroteThis(n, w);
    }
  }

  lemma WroteThis(n: Node, w: Write)
    requires w.Write? && (Lacks(n, w) ==> w.got.Some?)
    ensures Wrote(n, w, n.(extents := if Lacks(n, w) then Claim(n.extents, w.got.value) else n.extents,
                           size := Max(n.size, w.off + w.len)))
  {
    if Lacks(n, w) {
      ClaimPlaces(n.extents, w.got.value);
    }
  }

  /**
   A truncation cuts the file to `off`: what a pending write adds is placed first,
   then every byte below `off` stays where it is and nothing is mapped from `off` on.
   */
  ghost predicate Cut(fs: Fs, i: Ino, off: nat, w: Write, r: Errno, fs': Fs) {
    && i in fs.files && OnlyNode(fs, fs', i)
    && var f, g := fs.files[i], fs'.files[i];
       && r == (if f.node.deleted || off == f.node.size then Ok
                else if f.node.size < off then Inval
                else if Lacks(f.node, w) && w.got.None? then NoSpc
                else Ok)
       && (r != Ok || f.node.deleted || f.node.size <= off ==> g == f)
       && (r == Ok && !f.node.deleted && off < f.node.size ==>
             && g.node.size == off && g.isDirty
             && g.node.mtime == f.node.mtime && g.node.refs == f.node.refs && !g.node.deleted
             && (forall x: nat :: x < off ==> Phys(g.node.extents, x) == Placed(f.node, w, x))
             && Total(g.node.extents) <= off && (forall x: nat :: off <= x ==> Phys(g.node.extents, x) == None))
  }

  lemma {:induction false} PhysBeyond(es: seq<Extent>, x: nat)
    ensures Phys(es, x).Some? <==> x < Total(es)
  {
    if es != [] && es[0].length <= x {
      PhysBeyond(es[1..], x - es[0].length);
    }
  }

  /** The list cut at `off`. */
  lemma CutPlaces(es: seq<Extent>, off: nat)
    ensures var c := Claim([], Head(es, off));
            && Total(c) <= off && (forall x: nat :: x < off ==> Phys(c, x) == Phys(es, x))
            && (forall x: nat :: off <= x ==> Phys(c, x) == None)
  {
    var c := Claim([], Head(es, off));
    HeadTailTotal(es, off);
    ClaimPlaces([], Head(es, off));
    forall x: nat ensures x < off ==> Phys(c, x) == Phys(es, x)
                  ensures off <= x ==> Phys(c, x) == None {
      HeadPhys(es, off, x);
      PhysBeyond(c, x);
    }
  }

  lemma TruncateMeans(fs: Fs, i: Ino, off: nat, w: Write)
    requires i in fs.files
    ensures Cut(fs, i, off, w, Truncate(fs, i, off, w).1, Truncate(fs, i, off, w).0)
  {
    var f := fs.files[i];
    if !f.node.deleted && off < f.node.size {
      FlushMeans(fs, i, w);
      CutPlaces(FileAt(Flush(fs, i, w).0, i).node.extents, off);
    }
  }

  /** The next mount gives a truncated file exactly its new size and the bytes below it. */
  lemma TruncateIsDurable(fs: Fs, i: Ino, off: nat, w: Write)
    requires Inv(fs) && i in fs.writers && i in fs.files && GoodWrite(w)
    ensures var (fs', r) := Truncate(fs, i, off, w);
            && Inv(fs')
            && (r == Ok && off < fs.files[i].node.size && Linked(fs, i) ==>
                  Durable(fs', i) && Remount(fs').value.files[i].node.size == off)
  {
    TruncateKeeps(fs, i, off, w);
    var (fs', r) := Truncate(fs, i, off, w);
    if r == Ok && off < fs.files[i].node.size && Linked(fs, i) {
      TruncateMeans(fs, i, off, w);
      var d, x :| Entry(fs.dirs, d, x, i);
      assert LinkOk(fs, ReplayAll(fs).value, i) && Entry(fs'.dirs, d, x, i);
      ReplayedIsDurable(fs', i);
    }
  }

  /** Space for `off + len` bytes, or no space; the size and every byte already placed stay. */
  ghost predicate Reserved(fs: Fs, i: Ino, off: nat, len: nat, got: Option<seq<Extent>>, r: Errno, fs': Fs) {
    && i in fs.files && OnlyNode(fs, fs', i)
    && var f, g := fs.files[i], fs'.files[i];
       && r == (if !f.node.deleted && Total(f.node.extents) < off + len && got.None? then NoSpc else Ok)
       && g.isDirty == f.isDirty && g.node.size == f.node.size && g.node.mtime == f.node.mtime
       && g.node.refs == f.node.refs && g.node.deleted == f.node.deleted
       && (forall x: nat :: Phys(g.node.extents, x) ==
             if f.node.deleted then Phys(f.node.extents, x) else Placed(f.node, Write(off, len, got), x))
  }

  lemma PreallocateMeans(fs: Fs, i: Ino, off: nat, len: nat, got: Option<seq<Extent>>)
    requires i in fs.files
    ensures Reserved(fs, i, off, len, got, Preallocate(fs, i, off, len, got).1, Preallocate(fs, i, off, len, got).0)
  {
    if got.Some? {
      ClaimPlaces(fs.files[i].node.extents, got.value);
    }
  }

  /** Without the hazard, reserved space is there again after the next mount. */
  lemma PreallocateIsDurable(fs: Fs, i: Ino, off: nat, len: nat, got: Option<seq<Extent>>)
    requires Inv(fs) && i in fs.files && (got.Some? ==> Positive(got.value))
    requires !Hazard(fs, CPreallocate(i, off, len, got))
    ensures var fs' := Preallocate(fs, i, off, len, got).0;
            Inv(fs') && (fs' != fs && Linked(fs, i) ==> Durable(fs', i))
  {
    PreallocateKeeps(fs, i, off, len, got);
    var fs' := Preallocate(fs, i, off, len, got).0;
    if fs' != fs && Linked(fs, i) {
      assert fs'.dirs == fs.dirs;
      ReplayedIsDurable(fs', i);
    }
  }

  /** A sync is a flush after which the file is not dirty. */
  ghost predicate SyncedFile(fs: Fs, i: Ino, w: Write, r: Errno, fs': Fs) {
    && i in fs.files && OnlyNode(fs, fs', i)
    && var f, g := fs.files[i], fs'.files[i];
       && r == (if !f.node.deleted && Lacks(f.node, w) && w.got.None? then NoSpc else Ok)
       && (r != Ok ==> fs' == fs)
       && (r == Ok ==> !g.isDirty && (if f.node.deleted then SameContent(f.node, g.node) else Wrote(f.node, w, g.node)))
  }

  lemma FsyncMeans(fs: Fs, i: Ino, w: Write)
    requires i in fs.files && Sequenced(fs)
    ensures SyncedFile(fs, i, w, Fsync(fs, i, w).1, Fsync(fs, i, w).0)
  {
    FlushMeans(fs, i, w);
    FlushGrows(fs, i, w);
    if Flush(fs, i, w).1 == Ok {
      FsyncShape(fs, i, w);
      if Flush(fs, i, w).0.files[i].isDirty {
        SyncDirtyMeans(Flush(fs, i, w).0, i);
      }
    }
  }

  lemma SyncDirtyMeans(fs: Fs, i: Ino)
    requires Sequenced(fs) && i in fs.files
    ensures var f := fs.files[i];
            var fs' := FlushLog(LogUpdate(fs, i, f.(isDirty := false), IncUpdate(i, f.node)), 0);
            OnlyNode(fs, fs', i) && fs'.files[i].node == ResetDelta(f.node) && !fs'.files[i].isDirty
  {
    var f := fs.files[i];
    UpdateGrows(fs, i, f.(isDirty := false), IncUpdate(i, f.node));
    SyncShape(LogUpdate(fs, i, f.(isDirty := false), IncUpdate(i, f.node)));
  }

  /** After a successful sync of a linked file the next mount brings it back, size and bytes. */
  lemma FsyncIsDurable(fs: Fs, i: Ino, w: Write)
    requires Inv(fs) && i in fs.writers && i in fs.files && GoodWrite(w)
    ensures var (fs', r) := Fsync(fs, i, w);
            && (Inv(fs') <==> !Hazard(fs, CFsync(i, w)))
            && (r == Ok && Linked(fs, i) ==> Durable(fs', i))
  {
    StepKeepsIff(fs, CFsync(i, w));
    var (fs', r) := Fsync(fs, i, w);
    if r == Ok && Linked(fs, i) {
      FsyncMeans(fs, i, w);
      var d, x :| Entry(fs.dirs, d, x, i);
      assert LinkOk(fs, ReplayAll(fs).value, i) && Entry(fs'.dirs, d, x, i);
      RemountIsIdentity(fs', d, x, i);
    }
  }
}
