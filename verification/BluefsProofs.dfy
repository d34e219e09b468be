/**
 The replay theorem of BlueFS: over every run of the state machine, replaying
 the flushed and pending operations from empty maps rebuilds the directory tree
 and every clean file, exactly when no hazardous call was made.
 */
module BluefsProofs {
  import opened Options
  import opened BluefsTypes
  import opened BluefsLog
  import opened BluefsMachine

  function AllOps(fs: Fs): seq<Op> {
    LogOps(fs.log) + fs.pending
  }

  function ReplayAll(fs: Fs): Option<Nodes> {
    ReplayOps(NoNodes, AllOps(fs))
  }

  /** Sequence numbers: 1, 2, 3, ... in the log, and both live counters one ahead of the stable one. */
  ghost predicate Sequenced(fs: Fs) {
    && Numbered(fs.log, 1)
    && fs.seqStable == |fs.log|
    && fs.seqLive == fs.dirtySeqLive == fs.seqStable + 1
    && fs.dirtyFiles == map[]
    && forall i :: i in fs.files ==> fs.files[i].dirtySeq == 0
  }

  /** An in-memory file against its replayed node; `w`: opened for writing since the mount. */
  ghost predicate NodeOk(f: File, g: Node, w: bool) {
    var n := f.node;
    && Canonical(n.extents)
    && n.mtime == g.mtime
    && (w ==> n.committed <= Total(n.extents) && Splittable(n.extents, n.committed)
              && g.extents == Head(n.extents, n.committed))
    && (!w ==> !f.isDirty)
    && (!f.isDirty ==> n.size == g.size && n.extents == g.extents)
    && (w && !f.isDirty ==> n.committed == Total(n.extents))
  }

  /** A file named by a directory entry has exactly one link, in memory and in the replay. */
  ghost predicate LinkOk(fs: Fs, n: Nodes, i: Ino) {
    && i in fs.files && !fs.files[i].node.deleted && fs.files[i].node.refs == 1
    && i in n.files && n.files[i].refs == 1
  }

  predicate Entry(dirs: Dirs, d: string, x: string, i: Ino) {
    d in dirs && x in dirs[d] && dirs[d][x] == i
  }

  ghost predicate Unique(dirs: Dirs) {
    forall d, x, d', x', i :: Entry(dirs, d, x, i) && Entry(dirs, d', x', i) ==> d == d' && x == x'
  }

  ghost predicate LinksOk(fs: Fs, n: Nodes) {
    && Unique(fs.dirs)
    && forall d, x, i :: Entry(fs.dirs, d, x, i) ==> LinkOk(fs, n, i)
  }

  ghost predicate FilesOk(fs: Fs, n: Nodes) {
    && (forall i :: i in fs.files ==> i <= fs.inoLast)
    && (forall i :: i in n.files ==> i <= fs.inoLast && !n.files[i].deleted && Canonical(n.files[i].extents))
    && (forall i :: i in fs.files && !fs.files[i].node.deleted ==>
                      i in n.files && NodeOk(fs.files[i], n.files[i], i in fs.writers))
    && (forall i :: i in fs.files && fs.files[i].node.deleted ==>
                      Canonical(fs.files[i].node.extents) && (fs.files[i].isDirty ==> i !in n.files))
  }

  /** The in-memory state `fs` agrees with the replayed maps `n`. */
  ghost predicate Agrees(fs: Fs, n: Nodes) {
    n.dirs == fs.dirs && n.inoLast == fs.inoLast && LinksOk(fs, n) && FilesOk(fs, n)
  }

  ghost predicate Inv(fs: Fs) {
    Sequenced(fs) && ReplayAll(fs).Some? && Agrees(fs, ReplayAll(fs).value)
  }

  // ---- directory entries

  lemma EntriesRemoved(dirs: Dirs, d: string, x: string)
    requires d in dirs
    ensures forall d1, x1, i :: Entry(RemoveEntry(dirs, d, x), d1, x1, i)
                                <==> Entry(dirs, d1, x1, i) && !(d1 == d && x1 == x)
  {
  }

  lemma EntriesAdded(dirs: Dirs, d: string, x: string, i0: Ino)
    requires d in dirs
    ensures forall d1, x1, i :: Entry(AddEntry(dirs, d, x, i0), d1, x1, i)
                                <==> if d1 == d && x1 == x then i == i0 else Entry(dirs, d1, x1, i)
  {
  }

  lemma SameEntries(fs: Fs, fs': Fs, n: Nodes, n': Nodes)
    requires LinksOk(fs, n)
    requires forall d, x, i :: Entry(fs'.dirs, d, x, i) ==> Entry(fs.dirs, d, x, i)
    requires forall i :: LinkOk(fs, n, i) ==> LinkOk(fs', n', i)
    ensures LinksOk(fs', n')
  {
  }

  // ---- replaying the operations a step appends

  lemma Extend(fs: Fs, fs': Fs, ops: seq<Op>)
    requires ReplayAll(fs).Some?
    requires fs'.log == fs.log && fs'.pending == fs.pending + ops
    ensures ReplayAll(fs') == ReplayOps(ReplayAll(fs).value, ops)
  {
    assert AllOps(fs') == AllOps(fs) + ops;
    ReplayConcat(NoNodes, AllOps(fs), ops);
  }

  lemma ExtendTo(fs: Fs, fs': Fs, ops: seq<Op>, n': Nodes)
    requires ReplayAll(fs).Some? && Sequenced(fs') && Agrees(fs', n')
    requires fs'.log == fs.log && fs'.pending == fs.pending + ops
    requires ReplayOps(ReplayAll(fs).value, ops) == Some(n')
    ensures Inv(fs')
  {
    Extend(fs, fs', ops);
  }

  lemma MkdirKeeps(fs: Fs, d: string)
    requires Inv(fs)
    ensures Inv(Mkdir(fs, d).0)
  {
    if d !in fs.dirs {
      Extend(fs, Mkdir(fs, d).0, [OpDirCreate(d)]);
      ReplayOne(ReplayAll(fs).value, OpDirCreate(d));
      SameEntries(fs, Mkdir(fs, d).0, ReplayAll(fs).value, ReplayAll(Mkdir(fs, d).0).value);
    }
  }

  lemma RmdirKeeps(fs: Fs, d: string)
    requires Inv(fs)
    ensures Inv(Rmdir(fs, d).0)
  {
    if d in fs.dirs && fs.dirs[d] == map[] {
      Extend(fs, Rmdir(fs, d).0, [OpDirRemove(d)]);
      ReplayOne(ReplayAll(fs).value, OpDirRemove(d));
      SameEntries(fs, Rmdir(fs, d).0, ReplayAll(fs).value, ReplayAll(Rmdir(fs, d).0).value);
    }
  }

  lemma CreateReplays(n: Nodes, i: Ino, d: string, x: string)
    requires d in n.dirs && i == n.inoLast + 1 && i !in n.files
    ensures var node := FreshNode.(refs := 1);
            ReplayOps(n, [FullUpdate(i, node), OpDirLink(d, x, i)]) ==
            Some(Nodes(AddEntry(n.dirs, d, x, i), n.files[i := node], i))
  {
    var node := FreshNode.(refs := 1);
    ReplayTwo(n, FullUpdate(i, node), OpDirLink(d, x, i));
    assert n.files[i := FreshNode][i := node] == n.files[i := node];
  }

  lemma CreateAgrees(fs: Fs, n: Nodes, d: string, x: string)
    requires Agrees(fs, n) && d in fs.dirs && x !in fs.dirs[d]
    ensures var i := fs.inoLast + 1;
            Agrees(OpenForWrite(fs, d, x, false).0, Nodes(AddEntry(n.dirs, d, x, i), n.files[i := FreshNode.(refs := 1)], i))
  {
    var fs' := OpenForWrite(fs, d, x, false).0;
    var i := fs.inoLast + 1;
    var n' := Nodes(AddEntry(n.dirs, d, x, i), n.files[i := FreshNode.(refs := 1)], i);
    CreateLinks(fs, fs', n, n', i, d, x);
    CreateFiles(fs, fs', n, n', i);
  }

  lemma CreateLinks(fs: Fs, fs': Fs, n: Nodes, n': Nodes, i: Ino, d: string, x: string)
    requires LinksOk(fs, n) && d in fs.dirs && x !in fs.dirs[d] && i !in fs.files && i !in n.files
    requires fs'.dirs == AddEntry(fs.dirs, d, x, i) && fs'.files == fs.files[i := File(FreshNode.(refs := 1), false, 0)]
    requires n'.files == n.files[i := FreshNode.(refs := 1)]
    ensures LinksOk(fs', n')
  {
    EntriesAdded(fs.dirs, d, x, i);
    forall d1, x1, j | Entry(fs'.dirs, d1, x1, j) ensures LinkOk(fs', n', j) && (j == i ==> d1 == d && x1 == x) {
      if !(d1 == d && x1 == x) {
        assert LinkOk(fs, n, j);
      }
    }
  }

  lemma CreateFiles(fs: Fs, fs': Fs, n: Nodes, n': Nodes, i: Ino)
    requires FilesOk(fs, n) && i == fs.inoLast + 1 && fs'.inoLast == i && fs'.writers == fs.writers + {i}
    requires fs'.files == fs.files[i := File(FreshNode.(refs := 1), false, 0)]
    requires n'.files == n.files[i := FreshNode.(refs := 1)]
    ensures FilesOk(fs', n')
  {
  }

  lemma CreateKeeps(fs: Fs, d: string, x: string)
    requires Inv(fs) && d in fs.dirs && x !in fs.dirs[d]
    ensures Inv(OpenForWrite(fs, d, x, false).0) && Replays(OpenForWrite(fs, d, x, false).0, fs.inoLast + 1)
  {
    var n := ReplayAll(fs).value;
    var i := fs.inoLast + 1;
    var node := FreshNode.(refs := 1);
    CreateReplays(n, i, d, x);
    CreateAgrees(fs, n, d, x);
    Extend(fs, OpenForWrite(fs, d, x, false).0, [FullUpdate(i, node), OpDirLink(d, x, i)]);
    ExtendTo(fs, OpenForWrite(fs, d, x, false).0, [FullUpdate(i, node), OpDirLink(d, x, i)],
             Nodes(AddEntry(n.dirs, d, x, i), n.files[i := node], i));
  }

  /** Replay gives file `i` as it is in memory. */
  ghost predicate Replays(fs: Fs, i: Ino) {
    && i in fs.files && ReplayAll(fs).Some? && i in ReplayAll(fs).value.files
    && var n, g := fs.files[i].node, ReplayAll(fs).value.files[i];
       g.size == n.size && g.mtime == n.mtime && g.extents == n.extents
  }

  /** Replacing one live file on both sides by a matching pair keeps the agreement. */
  lemma UpdateAgrees(fs: Fs, fs': Fs, n: Nodes, i: Ino, f: File, g: Node)
    requires Agrees(fs, n) && i in fs.files && !fs.files[i].node.deleted
    requires fs'.dirs == fs.dirs && fs'.inoLast == fs.inoLast && fs'.files == fs.files[i := f]
    requires fs'.writers == fs.writers || fs'.writers == fs.writers + {i}
    requires !f.node.deleted && f.node.refs == fs.files[i].node.refs
    requires !g.deleted && Canonical(g.extents) && g.refs == n.files[i].refs
    requires NodeOk(f, g, i in fs'.writers)
    ensures Agrees(fs', n.(files := n.files[i := g]))
  {
    SameEntries(fs, fs', n, n.(files := n.files[i := g]));
  }

  /** A logged full update makes memory and replay agree on the file. */
  lemma FullUpdateKeeps(fs: Fs, i: Ino, f: File, writers: set<Ino>)
    requires Inv(fs) && i in fs.files && !fs.files[i].node.deleted && writers == fs.writers + {i}
    requires Canonical(f.node.extents) && f.dirtySeq == 0
    requires f.node.refs == fs.files[i].node.refs && !f.node.deleted
    ensures var fs' := LogUpdate(fs, i, f, FullUpdate(i, f.node)).(writers := writers); Inv(fs') && Replays(fs', i)
  {
    var n := ReplayAll(fs).value;
    var op := FullUpdate(i, f.node);
    var fs' := LogUpdate(fs, i, f, op).(writers := writers);
    var g := Node(f.node.size, f.node.mtime, f.node.extents, Total(f.node.extents), n.files[i].refs, n.files[i].deleted);
    HeadAll(f.node.extents);
    UpdateAgrees(fs, fs', n, i, fs'.files[i], g);
    ReplayOne(n, op);
    Extend(fs, fs', [op]);
    ExtendTo(fs, fs', [op], n.(files := n.files[i := g]));
  }

  lemma OpenKeeps(fs: Fs, d: string, x: string, overwrite: bool)
    requires Inv(fs)
    ensures Inv(OpenForWrite(fs, d, x, overwrite).0)
    ensures OpenForWrite(fs, d, x, overwrite).1 == Ok ==>
              var fs' := OpenForWrite(fs, d, x, overwrite).0;
              Entry(fs'.dirs, d, x, fs'.dirs[d][x]) && Replays(fs', fs'.dirs[d][x])
  {
    if d in fs.dirs && x in fs.dirs[d] {
      var i := fs.dirs[d][x];
      assert Entry(fs.dirs, d, x, i) && LinkOk(fs, ReplayAll(fs).value, i);
      var f := fs.files[i];
      var node := if overwrite then f.node.(mtime := 0)
                  else f.node.(size := 0, mtime := 0, extents := [], committed := 0);
      FullUpdateKeeps(fs, i, f.(node := node), fs.writers + {i});
    } else if d in fs.dirs && !overwrite {
      CreateKeeps(fs, d, x);
    }
  }

  lemma UnlinkReplays(n: Nodes, d: string, x: string)
    requires d in n.dirs && x in n.dirs[d] && n.dirs[d][x] in n.files && n.files[n.dirs[d][x]].refs == 1
    ensures var i := n.dirs[d][x];
            ReplayOps(n, [OpDirUnlink(d, x), OpFileRemove(i)]) ==
            Some(n.(dirs := RemoveEntry(n.dirs, d, x), files := n.files - {i}))
  {
    var i := n.dirs[d][x];
    ReplayTwo(n, OpDirUnlink(d, x), OpFileRemove(i));
    assert n.files[i := n.files[i].(refs := 0)] - {i} == n.files - {i};
  }

  lemma UnlinkShape(fs: Fs, d: string, x: string)
    requires Sequenced(fs) && d in fs.dirs && x in fs.dirs[d]
    requires var i := fs.dirs[d][x]; i in fs.files && fs.files[i].node.refs == 1
    ensures var i := fs.dirs[d][x];
            var f := fs.files[i];
            Unlink(fs, d, x).0 == fs.(dirs := RemoveEntry(fs.dirs, d, x),
                                      files := fs.files[i := f.(node := f.node.(refs := 0, deleted := true))],
                                      pending := fs.pending + [OpDirUnlink(d, x), OpFileRemove(i)])
  {
  }

  lemma UnlinkKeeps(fs: Fs, d: string, x: string)
    requires Inv(fs)
    ensures Inv(Unlink(fs, d, x).0)
  {
    if d in fs.dirs && x in fs.dirs[d] {
      var n := ReplayAll(fs).value;
      var i := fs.dirs[d][x];
      assert Entry(fs.dirs, d, x, i) && LinkOk(fs, n, i);
      var fs' := Unlink(fs, d, x).0;
      UnlinkShape(fs, d, x);
      UnlinkReplays(n, d, x);
      var n' := n.(dirs := RemoveEntry(fs.dirs, d, x), files := n.files - {i});
      EntriesRemoved(fs.dirs, d, x);
      forall d1, x1, j | Entry(fs'.dirs, d1, x1, j) ensures LinkOk(fs', n', j) {
        assert Entry(fs.dirs, d1, x1, j) && LinkOk(fs, n, j);
      }
      ExtendTo(fs, fs', [OpDirUnlink(d, x), OpFileRemove(i)], n');
    }
  }

  /** Replaying the unlinking of the target that a rename replaces. */
  lemma ReplayReplace(n: Nodes, d: string, x: string)
    requires d in n.dirs && x in n.dirs[d]
    requires var t := n.dirs[d][x]; t in n.files && n.files[t].refs == 1
    ensures var t := n.dirs[d][x];
            ReplayOps(n, [OpDirUnlink(d, x)]) ==
            Some(n.(dirs := RemoveEntry(n.dirs, d, x), files := n.files[t := n.files[t].(refs := 0)]))
  {
    ReplayOne(n, OpDirUnlink(d, x));
  }

  /** Replaying the link and the unlink of a rename moves the entry and keeps the link count. */
  lemma ReplayMove(n: Nodes, i: Ino, od: string, ox: string, nd: string, nx: string)
    requires od in n.dirs && ox in n.dirs[od] && n.dirs[od][ox] == i && nd in n.dirs
    requires i <= n.inoLast && i in n.files && n.files[i].refs == 1
    ensures ReplayOps(n, [OpDirLink(nd, nx, i), OpDirUnlink(od, ox)]) ==
            Some(n.(dirs := RemoveEntry(AddEntry(n.dirs, nd, nx, i), od, ox)))
  {
    var a, b := OpDirLink(nd, nx, i), OpDirUnlink(od, ox);
    ReplayTwo(n, a, b);
    var added := n.(dirs := AddEntry(n.dirs, nd, nx, i), files := n.files[i := n.files[i].(refs := 2)]);
    assert ApplyOp(n, a) == Some(added);
    assert added.files[i := added.files[i].(refs := 1)] == n.files;
  }

  /** The replayed maps after a rename. */
  function Renamed(n: Nodes, od: string, ox: string, nd: string, nx: string): Nodes
    requires od in n.dirs && ox in n.dirs[od] && nd in n.dirs
  {
    var i := n.dirs[od][ox];
    var moved := n.(dirs := RemoveEntry(AddEntry(n.dirs, nd, nx, i), od, ox));
    if nx in n.dirs[nd] && n.dirs[nd][nx] != i then
      var t := n.dirs[nd][nx];
      moved.(files := n.files[t := GetFile(n, t).(refs := 0)])
    else moved
  }

  lemma ReplayRename(fs: Fs, n: Nodes, od: string, ox: string, nd: string, nx: string)
    requires Agrees(fs, n) && od in n.dirs && ox in n.dirs[od] && nd in n.dirs
    ensures ReplayOps(n, RenameOps(n.dirs, od, ox, nd, nx)) == Some(Renamed(n, od, ox, nd, nx))
  {
    var i := n.dirs[od][ox];
    assert Entry(fs.dirs, od, ox, i) && LinkOk(fs, n, i);
    var move := [OpDirLink(nd, nx, i), OpDirUnlink(od, ox)];
    if nx in n.dirs[nd] && n.dirs[nd][nx] != i {
      var t := n.dirs[nd][nx];
      assert Entry(fs.dirs, nd, nx, t) && LinkOk(fs, n, t);
      var m := n.(dirs := RemoveEntry(n.dirs, nd, nx), files := n.files[t := n.files[t].(refs := 0)]);
      ReplayReplace(n, nd, nx);
      ReplayConcat(n, [OpDirUnlink(nd, nx)], move);
      ReplayMove(m, i, od, ox, nd, nx);
      assert AddEntry(m.dirs, nd, nx, i) == AddEntry(n.dirs, nd, nx, i) by {
        assert m.dirs[nd][nx := i] == n.dirs[nd][nx := i];
      }
    } else {
      assert [] + move == move;
      ReplayMove(n, i, od, ox, nd, nx);
    }
  }

  lemma RenameEntries(dirs: Dirs, od: string, ox: string, nd: string, nx: string)
    requires Unique(dirs) && od in dirs && ox in dirs[od] && nd in dirs
    ensures var i := dirs[od][ox];
            var dirs' := RemoveEntry(AddEntry(dirs, nd, nx, i), od, ox);
            && Unique(dirs')
            && forall d, x, j :: Entry(dirs', d, x, j) ==>
                 if d == nd && x == nx then j == i else Entry(dirs, d, x, j) && j != i
  {
    var i := dirs[od][ox];
    EntriesAdded(dirs, nd, nx, i);
    EntriesRemoved(AddEntry(dirs, nd, nx, i), od, ox);
    assert Entry(dirs, od, ox, i);
  }

  lemma RenameAgrees(fs: Fs, n: Nodes, od: string, ox: string, nd: string, nx: string)
    requires Agrees(fs, n) && od in fs.dirs && ox in fs.dirs[od] && nd in fs.dirs
    ensures Agrees(Rename(fs, od, ox, nd, nx).0, Renamed(n, od, ox, nd, nx))
  {
    var i := fs.dirs[od][ox];
    var fs' := Rename(fs, od, ox, nd, nx).0;
    var n' := Renamed(n, od, ox, nd, nx);
    assert Entry(fs.dirs, od, ox, i);
    assert nx in fs.dirs[nd] ==> Entry(fs.dirs, nd, nx, fs.dirs[nd][nx]) && LinkOk(fs, n, fs.dirs[nd][nx]);
    RenameEntries(fs.dirs, od, ox, nd, nx);
    forall d, x, j | Entry(fs'.dirs, d, x, j) ensures LinkOk(fs', n', j) {
      assert LinkOk(fs, n, j);
      assert nx in fs.dirs[nd] && fs.dirs[nd][nx] != i ==> j != fs.dirs[nd][nx];
    }
  }

  lemma RenameKeeps(fs: Fs, od: string, ox: string, nd: string, nx: string)
    requires Inv(fs)
    ensures Inv(Rename(fs, od, ox, nd, nx).0)
  {
    if od in fs.dirs && ox in fs.dirs[od] && nd in fs.dirs {
      var n := ReplayAll(fs).value;
      ReplayRename(fs, n, od, ox, nd, nx);
      RenameAgrees(fs, n, od, ox, nd, nx);
      ExtendTo(fs, Rename(fs, od, ox, nd, nx).0, RenameOps(fs.dirs, od, ox, nd, nx), Renamed(n, od, ox, nd, nx));
    }
  }

  /** Unlogged growth of a file: the replayed node stays the list below the delta mark. */
  lemma GrowKeepsNode(f: File, g: Node, w: Write)
    requires NodeOk(f, g, true) && w.Write? && GoodWrite(w)
    requires Total(f.node.extents) < w.off + w.len ==> w.got.Some?
    ensures var need := Total(f.node.extents) < w.off + w.len;
            var es := if need then Claim(f.node.extents, w.got.value) else f.node.extents;
            forall size :: NodeOk(f.(node := f.node.(extents := es, size := size), isDirty := true), g, true)
  {
    if Total(f.node.extents) < w.off + w.len {
      ClaimInvariant(f.node.extents, w.got.value);
      HeadClaim(f.node.extents, w.got.value, f.node.committed);
    }
  }

  lemma FlushKeeps(fs: Fs, i: Ino, w: Write)
    requires Inv(fs) && i in fs.writers && i in fs.files && GoodWrite(w)
    ensures Inv(Flush(fs, i, w).0)
  {
    var fs' := Flush(fs, i, w).0;
    if fs' != fs {
      var n := ReplayAll(fs).value;
      GrowKeepsNode(fs.files[i], n.files[i], w);
      UpdateAgrees(fs, fs', n, i, fs'.files[i], n.files[i]);
      assert n.files[i := n.files[i]] == n.files;
      ExtendTo(fs, fs', [], n);
    }
  }

  lemma FlushFrame(fs: Fs, i: Ino, w: Write)
    requires i in fs.files
    ensures var fs' := Flush(fs, i, w).0;
            fs'.writers == fs.writers && fs'.files.Keys == fs.files.Keys
            && fs'.files[i].node.deleted == fs.files[i].node.deleted
            && (fs.files[i].node.deleted ==> fs' == fs)
  {
  }

  lemma TruncateKeeps(fs: Fs, i: Ino, off: nat, w: Write)
    requires Inv(fs) && i in fs.writers && i in fs.files && GoodWrite(w)
    ensures Inv(Truncate(fs, i, off, w).0)
    ensures !fs.files[i].node.deleted && off < fs.files[i].node.size && Truncate(fs, i, off, w).1 == Ok ==>
              Replays(Truncate(fs, i, off, w).0, i)
  {
    FlushKeeps(fs, i, w);
    FlushFrame(fs, i, w);
    var (fs1, r) := Flush(fs, i, w);
    var f := fs.files[i].node;
    if !f.deleted && off < f.size && r == Ok {
      var g := fs1.files[i];
      var n := g.node.(extents := Claim([], Head(g.node.extents, off)), size := off);
      HeadTailTotal(g.node.extents, off);
      ClaimInvariant([], Head(g.node.extents, off));
      TruncatedKeeps(fs1, i, g.(node := n, isDirty := true));
    }
  }

  lemma TruncatedKeeps(fs: Fs, i: Ino, f: File)
    requires Inv(fs) && i in fs.writers && i in fs.files && !fs.files[i].node.deleted
    requires f.dirtySeq == 0 && f.node.refs == fs.files[i].node.refs && !f.node.deleted && Canonical(f.node.extents)
    ensures var fs' := LogUpdate(fs, i, f, FullUpdate(i, f.node)); Inv(fs') && Replays(fs', i)
  {
    FullUpdateKeeps(fs, i, f, fs.writers);
    var up := LogUpdate(fs, i, f, FullUpdate(i, f.node));
    assert up == up.(writers := fs.writers);
  }

  /** A logged delta brings the replayed file up to the in-memory one. */
  lemma IncUpdateKeeps(fs: Fs, i: Ino, f: File)
    requires Inv(fs) && i in fs.files && !fs.files[i].node.deleted
    requires f.dirtySeq == 0 && f.node.refs == fs.files[i].node.refs && !f.node.deleted
    requires var g := ReplayAll(fs).value.files[i];
             Canonical(f.node.extents) && f.node.mtime == g.mtime
             && f.node.committed <= Total(f.node.extents) && Splittable(f.node.extents, f.node.committed)
             && g.extents == Head(f.node.extents, f.node.committed)
    requires i in fs.writers || !f.isDirty
    ensures Inv(LogUpdate(fs, i, f, IncUpdate(i, f.node)))
    ensures var fs' := LogUpdate(fs, i, f, IncUpdate(i, f.node));
            var g' := ReplayAll(fs').value.files[i];
            && g'.size == f.node.size && g'.mtime == f.node.mtime && g'.extents == f.node.extents
            && g'.committed == ReplayAll(fs).value.files[i].committed
  {
    var n := ReplayAll(fs).value;
    var op := IncUpdate(i, f.node);
    var fs' := LogUpdate(fs, i, f, op);
    HeadTailTotal(f.node.extents, f.node.committed);
    DeltaRebuilds(f.node.extents, f.node.committed);
    HeadAll(f.node.extents);
    var g := n.files[i].(size := f.node.size, mtime := f.node.mtime, extents := f.node.extents);
    ReplayOne(n, op);
    UpdateAgrees(fs, fs', n, i, fs'.files[i], g);
    Extend(fs, fs', [op]);
    ExtendTo(fs, fs', [op], n.(files := n.files[i := g]));
  }

  lemma PreallocateKeeps(fs: Fs, i: Ino, off: nat, len: nat, got: Option<seq<Extent>>)
    requires Inv(fs) && i in fs.files && (got.Some? ==> Positive(got.value))
    requires !Hazard(fs, CPreallocate(i, off, len, got))
    ensures Inv(Preallocate(fs, i, off, len, got).0)
    ensures Preallocate(fs, i, off, len, got).0 != fs ==> Replays(Preallocate(fs, i, off, len, got).0, i)
  {
    var f := fs.files[i];
    if !f.node.deleted && Total(f.node.extents) < off + len && got.Some? {
      if i !in fs.writers {
        HeadAll(f.node.extents);
      }
      ClaimInvariant(f.node.extents, got.value);
      HeadClaim(f.node.extents, got.value, f.node.committed);
      IncUpdateKeeps(fs, i, f.(node := f.node.(extents := Claim(f.node.extents, got.value))));
    }
  }

  /** Flushing the log with no dirty files moves the pending operations into the next transaction. */
  lemma SyncShape(fs: Fs)
    requires Sequenced(fs)
    ensures FlushLog(fs, 0) == fs.(log := fs.log + [Txn(fs.seqLive, fs.pending)], pending := [],
                                   seqStable := fs.seqLive, seqLive := fs.seqLive + 1, dirtySeqLive := fs.seqLive + 1)
    ensures Sequenced(FlushLog(fs, 0)) && AllOps(FlushLog(fs, 0)) == AllOps(fs)
  {
    LogOpsSnoc(fs.log, Txn(fs.seqLive, fs.pending));
    assert fs.dirtyFiles - {fs.seqLive} == map[];
  }

  lemma SyncKeeps(fs: Fs)
    requires Inv(fs)
    ensures Inv(FlushLog(fs, 0))
  {
    SyncShape(fs);
    var fs' := FlushLog(fs, 0);
    SameEntries(fs, fs', ReplayAll(fs).value, ReplayAll(fs).value);
  }

  lemma ConsumeOne(fs: Fs, i: Ino)
    requires i in fs.files
    ensures ConsumeDirty(fs, [i]) == LogUpdate(fs, i, fs.files[i], IncUpdate(i, fs.files[i].node))
    ensures ClearDirty(fs, [i]) == SetNode(fs, i, fs.files[i].(dirtySeq := 0))
  {
    assert [i][1..] == [];
  }

  /** Fsync of a dirty file logs exactly one incremental update for it, then flushes the log. */
  lemma FsyncShape(fs: Fs, i: Ino, w: Write)
    requires i in fs.files && Sequenced(Flush(fs, i, w).0) && Flush(fs, i, w).1 == Ok
    ensures var fs1 := Flush(fs, i, w).0;
            var f := fs1.files[i];
            Fsync(fs, i, w) ==
            (if f.isDirty then FlushLog(LogUpdate(fs1, i, f.(isDirty := false), IncUpdate(i, f.node)), 0) else fs1, Ok)
  {
    FlushFrame(fs, i, w);
    var fs1 := Flush(fs, i, w).0;
    var f := fs1.files[i];
    if f.isDirty {
      var s := fs1.seqLive;
      var f2 := f.(dirtySeq := s, isDirty := false);
      var fs2 := fs1.(files := fs1.files[i := f2], dirtyFiles := map[s := [i]]);
      assert SignalDirty(fs1, i) == fs2 by {
        assert [] + [i] == [i];
        assert fs1.dirtyFiles[s := [i]] == map[s := [i]];
      }
      var up := LogUpdate(fs1, i, f.(isDirty := false), IncUpdate(i, f.node));
      var g := f2.(node := ResetDelta(f.node));
      var fs3 := fs2.(seqLive := s + 1, dirtySeqLive := s + 1);
      ConsumeOne(fs3, i);
      var a := fs3.(files := fs1.files[i := g], pending := up.pending);
      assert ConsumeDirty(fs3, [i]) == a by {
        assert fs3.files[i := g] == fs1.files[i := g];
      }
      var b := a.(log := a.log + [Txn(s, a.pending)], pending := [], seqStable := s);
      ConsumeOne(b, i);
      assert b.files[i := g.(dirtySeq := 0)] == up.files;
      assert b.dirtyFiles - {s} == map[];
      SyncShape(up);
    }
  }

  lemma OrphanAgrees(fs: Fs, n: Nodes, i: Ino, f: File, g: Node, pending: seq<Op>)
    requires Agrees(fs, n) && i in fs.files && fs.files[i].node.deleted
    requires f.node.deleted && !f.isDirty && Canonical(f.node.extents) && !g.deleted && Canonical(g.extents)
    ensures Agrees(fs.(files := fs.files[i := f], pending := pending), n.(files := n.files[i := g]))
  {
    var fs' := fs.(files := fs.files[i := f], pending := pending);
    var n' := n.(files := n.files[i := g]);
    forall j | LinkOk(fs, n, j) ensures LinkOk(fs', n', j) {
      assert j != i;
    }
    SameEntries(fs, fs', n, n');
  }

  /** The node a delta from offset 0 makes of a file the replay does not have. */
  function OrphanNode(n: Node): Node {
    FreshNode.(size := n.size, mtime := n.mtime, extents := Claim([], Tail(n.extents, 0)))
  }

  lemma OrphanReplay(n: Nodes, i: Ino, f: Node)
    requires i !in n.files && i <= n.inoLast && f.committed == 0 && Canonical(f.extents)
    ensures ApplyOp(n, IncUpdate(i, f)) == Some(n.(files := n.files[i := OrphanNode(f)]))
    ensures Canonical(OrphanNode(f).extents)
  {
    HeadTailTotal(f.extents, 0);
    ClaimInvariant([], Tail(f.extents, 0));
  }

  /** An unlinked dirty file without logged space: its delta recreates an orphan that the sweep removes. */
  lemma OrphanUpdateKeeps(fs: Fs, i: Ino)
    requires Inv(fs) && i in fs.files && fs.files[i].node.deleted && fs.files[i].isDirty
    requires fs.files[i].node.committed == 0
    ensures Inv(LogUpdate(fs, i, fs.files[i].(isDirty := false), IncUpdate(i, fs.files[i].node)))
  {
    var n := ReplayAll(fs).value;
    var f := fs.files[i];
    var op := IncUpdate(i, f.node);
    var f' := f.(isDirty := false, node := ResetDelta(f.node));
    OrphanReplay(n, i, f.node);
    OrphanAgrees(fs, n, i, f', OrphanNode(f.node), fs.pending + [op]);
    ReplayOne(n, op);
    ExtendTo(fs, LogUpdate(fs, i, f.(isDirty := false), op), [op], n.(files := n.files[i := OrphanNode(f.node)]));
  }

  lemma FsyncKeeps(fs: Fs, i: Ino, w: Write)
    requires Inv(fs) && i in fs.writers && i in fs.files && GoodWrite(w)
    requires !Hazard(fs, CFsync(i, w))
    ensures Inv(Fsync(fs, i, w).0)
  {
    FlushKeeps(fs, i, w);
    FlushFrame(fs, i, w);
    var (fs1, r) := Flush(fs, i, w);
    if r == Ok {
      FsyncShape(fs, i, w);
      var f := fs1.files[i];
      if f.isDirty {
        if f.node.deleted {
          OrphanUpdateKeeps(fs1, i);
        } else {
          IncUpdateKeeps(fs1, i, f.(isDirty := false));
        }
        SyncKeeps(LogUpdate(fs1, i, f.(isDirty := false), IncUpdate(i, f.node)));
      }
    }
  }

  /** The flushed transactions alone replay to the current node of file `i`. */
  ghost predicate Logged(fs: Fs, i: Ino) {
    var n := ReplayOps(NoNodes, LogOps(fs.log));
    && i in fs.files && !fs.files[i].isDirty && fs.pending == []
    && n.Some? && i in n.value.files
    && n.value.files[i].size == fs.files[i].node.size
    && n.value.files[i].mtime == fs.files[i].node.mtime
    && n.value.files[i].extents == fs.files[i].node.extents
  }

  /**
   After a successful fsync of a linked file that was dirty on entry or dirtied
   by its own flush, the flushed transactions alone replay to its current node.
   */
  lemma FsyncIsLogged(fs: Fs, i: Ino, w: Write)
    requires Inv(fs) && i in fs.writers && i in fs.files && GoodWrite(w) && !fs.files[i].node.deleted
    requires Fsync(fs, i, w).1 == Ok && FileAt(Flush(fs, i, w).0, i).isDirty
    ensures Logged(Fsync(fs, i, w).0, i)
  {
    FlushKeeps(fs, i, w);
    FlushFrame(fs, i, w);
    FsyncShape(fs, i, w);
    UpdateIsLogged(Flush(fs, i, w).0, i);
  }

  lemma UpdateIsLogged(fs: Fs, i: Ino)
    requires Inv(fs) && i in fs.writers && i in fs.files && !fs.files[i].node.deleted
    ensures Logged(FlushLog(LogUpdate(fs, i, fs.files[i].(isDirty := false), IncUpdate(i, fs.files[i].node)), 0), i)
  {
    var f := fs.files[i];
    var up := LogUpdate(fs, i, f.(isDirty := false), IncUpdate(i, f.node));
    IncUpdateKeeps(fs, i, f.(isDirty := false));
    SyncShape(up);
    var fs' := FlushLog(up, 0);
    assert LogOps(fs'.log) + [] == LogOps(fs'.log);
  }

  lemma RemountKeeps(fs: Fs)
    requires Inv(fs)
    ensures Remount(fs).Some? && Inv(Remount(fs).value)
    ensures var fs' := Remount(fs).value;
            && ReplayAll(fs') == ReplayAll(fs)
            && fs'.dirs == fs.dirs && fs'.inoLast == fs.inoLast
            && fs'.files.Keys == Sweep(ReplayAll(fs).value.files).Keys
            && forall i :: i in fs'.files ==> fs'.files[i] == File(ReplayAll(fs).value.files[i], false, 0)
  {
    RemountIs(fs);
    var n := ReplayAll(fs).value;
    var fs' := Remount(fs).value;
    SameEntries(fs, fs', n, n);
    assert LogOps(fs'.log) + [] == LogOps(fs'.log);
  }

  /** The mounted state: the replayed maps, swept. */
  lemma RemountIs(fs: Fs)
    requires Sequenced(fs) && ReplayAll(fs).Some?
    ensures var n := ReplayAll(fs).value;
            var log := FlushLog(fs, 0).log;
            && Numbered(log, 1) && ReplayOps(NoNodes, LogOps(log)) == Some(n)
            && Remount(fs) == Some(Fs(n.dirs, map i | i in Sweep(n.files) :: File(Sweep(n.files)[i], false, 0), n.inoLast, {},
                                      [], log, |log| + 1, |log| + 1, |log|, map[]))
  {
    SyncShape(fs);
    var log := FlushLog(fs, 0).log;
    assert LogOps(log) + [] == LogOps(log);
    ReplayTxnsIsReplayOps(NoNodes, 0, log);
  }

  /** `fs'` has the directory tree of `fs` and every clean linked file of it. */
  ghost predicate Restores(fs: Fs, fs': Fs) {
    && fs'.dirs == fs.dirs && fs'.inoLast == fs.inoLast
    && forall d, x, i :: Entry(fs.dirs, d, x, i) && i in fs.files && !fs.files[i].isDirty ==>
         && i in fs'.files
         && fs'.files[i].node.size == fs.files[i].node.size
         && fs'.files[i].node.mtime == fs.files[i].node.mtime
         && fs'.files[i].node.extents == fs.files[i].node.extents
  }

  lemma RemountRestoresAll(fs: Fs)
    requires Inv(fs)
    ensures Remount(fs).Some? && Inv(Remount(fs).value) && Restores(fs, Remount(fs).value)
  {
    RemountKeeps(fs);
    forall d, x, i | Entry(fs.dirs, d, x, i) && i in fs.files && !fs.files[i].isDirty
      ensures var fs' := Remount(fs).value;
              && i in fs'.files
              && fs'.files[i].node.size == fs.files[i].node.size
              && fs'.files[i].node.mtime == fs.files[i].node.mtime
              && fs'.files[i].node.extents == fs.files[i].node.extents
    {
      RemountIsIdentity(fs, d, x, i);
    }
  }

  /**
   Unmount then mount is the identity on the directory tree and on every clean
   linked file.
   */
  lemma RemountIsIdentity(fs: Fs, d: string, x: string, i: Ino)
    requires Inv(fs) && Entry(fs.dirs, d, x, i)
    ensures Remount(fs).Some? && Remount(fs).value.dirs == fs.dirs
    ensures var fs' := Remount(fs).value;
            && i in fs.files && i in fs'.files
            && fs'.files[i].node.refs == fs.files[i].node.refs == 1
            && (!fs.files[i].isDirty ==>
                  && fs'.files[i].node.size == fs.files[i].node.size
                  && fs'.files[i].node.mtime == fs.files[i].node.mtime
                  && fs'.files[i].node.extents == fs.files[i].node.extents)
  {
    RemountKeeps(fs);
    assert LinkOk(fs, ReplayAll(fs).value, i);
  }

  // ---- hazards

  lemma UnlinkedFsyncBreaks(fs: Fs, i: Ino, w: Write)
    requires Inv(fs) && i in fs.files && Hazard(fs, CFsync(i, w))
    ensures Sequenced(Fsync(fs, i, w).0) && ReplayAll(Fsync(fs, i, w).0).None?
  {
    var n := ReplayAll(fs).value;
    FlushFrame(fs, i, w);
    FsyncShape(fs, i, w);
    var f := fs.files[i];
    var op := IncUpdate(i, f.node);
    var up := LogUpdate(fs, i, f.(isDirty := false), op);
    assert ApplyOp(n, op).None?;
    ReplayOne(n, op);
    Extend(fs, up, [op]);
    SyncShape(up);
  }

  lemma StalePreallocateBreaks(fs: Fs, i: Ino, off: nat, len: nat, got: Option<seq<Extent>>)
    requires Inv(fs) && i in fs.files && Hazard(fs, CPreallocate(i, off, len, got))
    ensures Sequenced(Preallocate(fs, i, off, len, got).0) && ReplayAll(Preallocate(fs, i, off, len, got).0).None?
  {
    var n := ReplayAll(fs).value;
    var f := fs.files[i].node;
    var op := IncUpdate(i, f.(extents := Claim(f.extents, got.value)));
    assert NodeOk(fs.files[i], n.files[i], false);
    assert ApplyOp(n, op).None?;
    ReplayOne(n, op);
    Extend(fs, Preallocate(fs, i, off, len, got).0, [op]);
  }

  /** A hazardous call logs an operation that replay rejects. */
  lemma HazardBreaks(fs: Fs, c: Cmd)
    requires Inv(fs) && Legal(fs, c) && Hazard(fs, c)
    ensures Exec(fs, c).Some? && Sequenced(Exec(fs, c).value) && ReplayAll(Exec(fs, c).value).None?
  {
    if c.CFsync? {
      UnlinkedFsyncBreaks(fs, c.ino, c.write);
    } else {
      StalePreallocateBreaks(fs, c.ino, c.off, c.len, c.got);
    }
  }

  /** No operation unwrites the log, and sequence numbers stay in step even when replay is lost. */
  lemma LogGrows(fs: Fs, c: Cmd)
    requires Sequenced(fs) && Legal(fs, c) && !c.CRemount?
    ensures Exec(fs, c).Some? && Sequenced(Exec(fs, c).value)
    ensures AllOps(fs) <= AllOps(Exec(fs, c).value)
  {
    if c.CFsync? {
      FsyncGrows(fs, c.ino, c.write);
    } else if c.CTruncate? {
      TruncateGrows(fs, c.ino, c.size, c.write);
    } else if c.CPreallocate? {
      PreallocateGrows(fs, c.ino, c.off, c.len, c.got);
    } else if c.CSync? {
      SyncShape(fs);
    } else {
      assert Exec(fs, c).value.log == fs.log;
      assert fs.pending <= Exec(fs, c).value.pending;
    }
  }

  /** The call logs at most one operation, an update of file `i`. */
  ghost predicate OneUpdate(fs: Fs, fs': Fs, i: Ino) {
    || AllOps(fs') == AllOps(fs)
    || exists op: Op :: (op.OpFileUpdate? || op.OpFileUpdateInc?) && op.ino == i && AllOps(fs') == AllOps(fs) + [op]
  }

  lemma TruncateGrows(fs: Fs, i: Ino, off: nat, w: Write)
    requires Sequenced(fs) && i in fs.files
    ensures Sequenced(Truncate(fs, i, off, w).0) && OneUpdate(fs, Truncate(fs, i, off, w).0, i)
  {
    FlushFrame(fs, i, w);
    FlushGrows(fs, i, w);
    var (fs1, r) := Flush(fs, i, w);
    var g := FileAt(fs1, i);
    var n := g.node.(extents := Claim([], Head(g.node.extents, off)), size := off);
    UpdateGrows(fs1, i, g.(node := n, isDirty := true), FullUpdate(i, n));
  }

  lemma UpdateGrows(fs: Fs, i: Ino, f: File, op: Op)
    requires Sequenced(fs) && f.dirtySeq == 0
    ensures Sequenced(LogUpdate(fs, i, f, op)) && AllOps(LogUpdate(fs, i, f, op)) == AllOps(fs) + [op]
  {
  }

  lemma FlushGrows(fs: Fs, i: Ino, w: Write)
    requires Sequenced(fs) && i in fs.files
    ensures Sequenced(Flush(fs, i, w).0) && AllOps(Flush(fs, i, w).0) == AllOps(fs)
  {
  }

  lemma PreallocateGrows(fs: Fs, i: Ino, off: nat, len: nat, got: Option<seq<Extent>>)
    requires Sequenced(fs) && i in fs.files
    ensures Sequenced(Preallocate(fs, i, off, len, got).0) && OneUpdate(fs, Preallocate(fs, i, off, len, got).0, i)
  {
    if got.Some? {
      var f := fs.files[i];
      var n := f.node.(extents := Claim(f.node.extents, got.value));
      UpdateGrows(fs, i, f.(node := n), IncUpdate(i, n));
    }
  }

  lemma FsyncGrows(fs: Fs, i: Ino, w: Write)
    requires Sequenced(fs) && i in fs.files
    ensures Sequenced(Fsync(fs, i, w).0) && OneUpdate(fs, Fsync(fs, i, w).0, i)
  {
    FlushFrame(fs, i, w);
    FlushGrows(fs, i, w);
    if Flush(fs, i, w).1 == Ok {
      FsyncShape(fs, i, w);
      var fs1 := Flush(fs, i, w).0;
      if fs1.files[i].isDirty {
        SyncUpdateGrows(fs1, i);
      }
    }
  }

  lemma SyncUpdateGrows(fs: Fs, i: Ino)
    requires Sequenced(fs) && i in fs.files
    ensures var f := fs.files[i];
            var up := LogUpdate(fs, i, f.(isDirty := false), IncUpdate(i, f.node));
            Sequenced(FlushLog(up, 0)) && AllOps(FlushLog(up, 0)) == AllOps(fs) + [IncUpdate(i, f.node)]
  {
    var f := fs.files[i];
    UpdateGrows(fs, i, f.(isDirty := false), IncUpdate(i, f.node));
    SyncShape(LogUpdate(fs, i, f.(isDirty := false), IncUpdate(i, f.node)));
  }
}
