/**
 What `rename` does to names (`bluestore/bluefs.cc`): it installs the new name
 exactly when that differs from the old one.  Renaming a file onto itself leaves
 it without a name but with a link, and no later call or mount gets rid of it.
 */
module BluefsRename {
  import opened Options
  import opened BluefsTypes
  import opened BluefsLog
  import opened BluefsMachine
  import opened BluefsProofs
  import opened BluefsRuns

  /** The target names the file after a successful rename if and only if it is not the source. */
  lemma RenameInstalls(fs: Fs, od: string, ox: string, nd: string, nx: string)
    requires Rename(fs, od, ox, nd, nx).1 == Ok
    ensures od in fs.dirs && ox in fs.dirs[od]
    ensures Entry(Rename(fs, od, ox, nd, nx).0.dirs, nd, nx, fs.dirs[od][ox]) <==> !(od == nd && ox == nx)
  {
    var i := fs.dirs[od][ox];
    EntriesAdded(fs.dirs, nd, nx, i);
    EntriesRemoved(AddEntry(fs.dirs, nd, nx, i), od, ox);
    assert Entry(AddEntry(fs.dirs, nd, nx, i), nd, nx, i);
  }

  /** No directory entry names file `i`. */
  ghost predicate Nameless(dirs: Dirs, i: Ino) {
    forall d, x :: !Entry(dirs, d, x, i)
  }

  /** Replay gives file `i` a link but no name. */
  ghost predicate Stray(n: Nodes, i: Ino) {
    i in n.files && n.files[i].refs == 1 && Nameless(n.dirs, i)
  }

  ghost predicate Leaked(fs: Fs, i: Ino) {
    Inv(fs) && Stray(ReplayAll(fs).value, i)
  }

  lemma SelfRenameLeaks(fs: Fs, d: string, x: string, i: Ino)
    requires Inv(fs) && Entry(fs.dirs, d, x, i)
    ensures Rename(fs, d, x, d, x).1 == Ok && Leaked(Rename(fs, d, x, d, x).0, i)
  {
    var n := ReplayAll(fs).value;
    var fs' := Rename(fs, d, x, d, x).0;
    assert LinkOk(fs, n, i);
    RenameKeeps(fs, d, x, d, x);
    ReplayRename(fs, n, d, x, d, x);
    Extend(fs, fs', RenameOps(fs.dirs, d, x, d, x));
    RenameEntries(fs.dirs, d, x, d, x);
    EntriesRemoved(AddEntry(fs.dirs, d, x, i), d, x);
  }

  /** The operations that can give or take a link of file `i` that no entry names. */
  predicate Touches(op: Op, i: Ino) {
    (op.OpDirLink? && op.ino == i) || (op.OpFileRemove? && op.ino == i)
  }

  ghost predicate Untouched(ops: seq<Op>, i: Ino) {
    forall k :: 0 <= k < |ops| ==> !Touches(ops[k], i)
  }

  lemma ApplyKeepsStray(n: Nodes, op: Op, i: Ino)
    requires Stray(n, i) && !Touches(op, i) && ApplyOp(n, op).Some?
    ensures Stray(ApplyOp(n, op).value, i)
  {
    if op.OpDirLink? && op.dir in n.dirs {
      EntriesAdded(n.dirs, op.dir, op.name, op.ino);
    } else if op.OpDirUnlink? && op.dir in n.dirs && op.name in n.dirs[op.dir] {
      assert Entry(n.dirs, op.dir, op.name, n.dirs[op.dir][op.name]);
      EntriesRemoved(n.dirs, op.dir, op.name);
    } else {
      var n' := ApplyOp(n, op).value;
      forall d, x ensures !Entry(n'.dirs, d, x, i) {
        assert !Entry(n.dirs, d, x, i);
      }
    }
  }

  lemma {:induction false} ReplayKeepsStray(n: Nodes, ops: seq<Op>, i: Ino)
    requires Stray(n, i) && Untouched(ops, i) && ReplayOps(n, ops).Some?
    ensures Stray(ReplayOps(n, ops).value, i)
    decreases |ops|
  {
    if ops != [] {
      ApplyKeepsStray(n, ops[0], i);
      assert forall k :: 0 <= k < |ops[1..]| ==> ops[1..][k] == ops[k + 1];
      ReplayKeepsStray(ApplyOp(n, ops[0]).value, ops[1..], i);
    }
  }

  /** The operations a call has logged or will log. */
  ghost function Added(fs: Fs, fs': Fs): seq<Op>
    requires AllOps(fs) <= AllOps(fs')
  {
    AllOps(fs')[|AllOps(fs)|..]
  }

  lemma AddedIs(fs: Fs, fs': Fs, ops: seq<Op>)
    requires fs'.log == fs.log && fs'.pending == fs.pending + ops
    ensures AllOps(fs) <= AllOps(fs') && Added(fs, fs') == ops
  {
    assert AllOps(fs') == AllOps(fs) + ops;
  }

  /** The calls on names touch no stray file: it has no name, and new files get new numbers. */
  lemma NamesSpareStray(fs: Fs, c: Cmd, i: Ino)
    requires Leaked(fs, i) && (c.CMkdir? || c.CRmdir? || c.COpen? || c.CUnlink? || c.CRename?)
    ensures Exec(fs, c).Some? && AllOps(fs) <= AllOps(Exec(fs, c).value) && Untouched(Added(fs, Exec(fs, c).value), i)
  {
    var fs' := Exec(fs, c).value;
    var ops := NameOps(fs, c);
    NameOpsSpare(fs, c, i);
    AddedIs(fs, fs', ops);
  }

  /** The operations that a call on names logs. */
  function NameOps(fs: Fs, c: Cmd): seq<Op> {
    match c
    case CMkdir(d) => if d in fs.dirs then [] else [OpDirCreate(d)]
    case CRmdir(d) => if d !in fs.dirs || fs.dirs[d] != map[] then [] else [OpDirRemove(d)]
    case COpen(d, x, over) =>
      if d !in fs.dirs || (x !in fs.dirs[d] && over) then []
      else if x !in fs.dirs[d] then
        [FullUpdate(fs.inoLast + 1, FreshNode.(refs := 1)), OpDirLink(d, x, fs.inoLast + 1)]
      else
        var n := FileAt(fs, fs.dirs[d][x]).node;
        [FullUpdate(fs.dirs[d][x], if over then n.(mtime := 0) else n.(size := 0, mtime := 0, extents := [], committed := 0))]
    case CUnlink(d, x) =>
      if d !in fs.dirs || x !in fs.dirs[d] then []
      else [OpDirUnlink(d, x)] + if FileAt(fs, fs.dirs[d][x]).node.refs == 1 then [OpFileRemove(fs.dirs[d][x])] else []
    case CRename(d, x, nd, nx) =>
      if d !in fs.dirs || x !in fs.dirs[d] || nd !in fs.dirs then [] else RenameOps(fs.dirs, d, x, nd, nx)
    case _ => []
  }

  lemma NameOpsSpare(fs: Fs, c: Cmd, i: Ino)
    requires Leaked(fs, i) && (c.CMkdir? || c.CRmdir? || c.COpen? || c.CUnlink? || c.CRename?)
    ensures Untouched(NameOps(fs, c), i)
    ensures Exec(fs, c).Some? && Exec(fs, c).value.log == fs.log && Exec(fs, c).value.pending == fs.pending + NameOps(fs, c)
  {
    assert fs.dirs == ReplayAll(fs).value.dirs && i <= fs.inoLast;
    if (c.COpen? || c.CUnlink? || c.CRename?) && c.dir in fs.dirs && c.name in fs.dirs[c.dir] {
      assert Entry(fs.dirs, c.dir, c.name, fs.dirs[c.dir][c.name]);
    }
  }

  /** The calls on open files log only updates. */
  lemma WritesSpareStray(fs: Fs, c: Cmd, i: Ino)
    requires Sequenced(fs) && Legal(fs, c) && (c.CFlush? || c.CTruncate? || c.CPreallocate? || c.CFsync? || c.CSync?)
    ensures Exec(fs, c).Some? && AllOps(fs) <= AllOps(Exec(fs, c).value) && Untouched(Added(fs, Exec(fs, c).value), i)
  {
    var fs' := Exec(fs, c).value;
    match c
    case CFlush(j, w) => FlushGrows(fs, j, w);
    case CTruncate(j, off, w) =>
      TruncateGrows(fs, j, off, w);
      UpdateSpares(fs, fs', j, i);
    case CPreallocate(j, off, len, got) =>
      PreallocateGrows(fs, j, off, len, got);
      UpdateSpares(fs, fs', j, i);
    case CFsync(j, w) =>
      FsyncGrows(fs, j, w);
      UpdateSpares(fs, fs', j, i);
    case CSync => SyncShape(fs);
  }

  lemma UpdateSpares(fs: Fs, fs': Fs, j: Ino, i: Ino)
    requires OneUpdate(fs, fs', j)
    ensures AllOps(fs) <= AllOps(fs') && Untouched(Added(fs, fs'), i)
  {
  }

  lemma StepKeepsLeak(fs: Fs, c: Cmd, i: Ino)
    requires Leaked(fs, i) && Legal(fs, c) && !Hazard(fs, c)
    ensures Exec(fs, c).Some? && Leaked(Exec(fs, c).value, i)
  {
    StepKeeps(fs, c);
    if c.CRemount? {
      RemountKeeps(fs);
    } else {
      if c.CMkdir? || c.CRmdir? || c.COpen? || c.CUnlink? || c.CRename? {
        NamesSpareStray(fs, c, i);
      } else {
        WritesSpareStray(fs, c, i);
      }
      var fs' := Exec(fs, c).value;
      assert AllOps(fs') == AllOps(fs) + Added(fs, fs');
      ReplayConcat(NoNodes, AllOps(fs), Added(fs, fs'));
      ReplayKeepsStray(ReplayAll(fs).value, Added(fs, fs'), i);
    }
  }

  /** Whatever is done after a rename onto itself, every mount keeps the file, and nothing names it. */
  lemma {:induction false} LeakStays(fs: Fs, cs: seq<Cmd>, i: Ino)
    requires Leaked(fs, i) && LegalRun(fs, cs) && HazardFree(fs, cs)
    ensures Run(fs, cs).Some? && Leaked(Run(fs, cs).value, i)
    ensures var m := Remount(Run(fs, cs).value); m.Some? && i in m.value.files && Nameless(m.value.dirs, i)
    decreases cs
  {
    if cs == [] {
      LeakMounts(fs, i);
    } else {
      StepKeepsLeak(fs, cs[0], i);
      LeakStays(Exec(fs, cs[0]).value, cs[1..], i);
    }
  }

  /** A run in which it happens: create a file, rename it onto itself, mount again. */
  lemma SelfRenameRun()
    ensures var cs := Opening + [CRename("d", "x", "d", "x")];
            && LegalRun(Fresh, cs) && Run(Fresh, cs).Some? && Leaked(Run(Fresh, cs).value, 2)
            && Remount(Run(Fresh, cs).value).Some? && 2 in Remount(Run(Fresh, cs).value).value.files
            && Nameless(Remount(Run(Fresh, cs).value).value.dirs, 2)
  {
    OpeningRuns();
    SelfRenameAfter(Opening, "d", "x", 2);
  }

  lemma SelfRenameAfter(cs: seq<Cmd>, d: string, x: string, i: Ino)
    requires LegalRun(Fresh, cs) && Run(Fresh, cs).Some? && Inv(Run(Fresh, cs).value) && Entry(Run(Fresh, cs).value.dirs, d, x, i)
    ensures var cs' := cs + [CRename(d, x, d, x)];
            && LegalRun(Fresh, cs') && Run(Fresh, cs').Some? && Leaked(Run(Fresh, cs').value, i)
            && Remount(Run(Fresh, cs').value).Some? && i in Remount(Run(Fresh, cs').value).value.files
            && Nameless(Remount(Run(Fresh, cs').value).value.dirs, i)
  {
    var s, c := Run(Fresh, cs).value, CRename(d, x, d, x);
    RunOne(s, c);
    RunSplits(Fresh, cs, [c]);
    SelfRenameLeaks(s, d, x, i);
    LeakMounts(Rename(s, d, x, d, x).0, i);
  }

  /** A mount keeps a file that has a link but no name. */
  lemma LeakMounts(fs: Fs, i: Ino)
    requires Leaked(fs, i)
    ensures Remount(fs).Some? && i in Remount(fs).value.files && Nameless(Remount(fs).value.dirs, i)
  {
    RemountKeeps(fs);
  }
}
